/**
 The decision and sanitising logic of the Instaread audio-player WordPress plugin
 (class `InstareadPlayer`): the CSS-selector and insert-position sanitisers run when the
 settings are saved, the slug-exclusion test decides whether the player script is written
 into a page's head, and the resource-hint filter adds the player's origin to the
 `dns-prefetch` and `preconnect` lists.

 WordPress lookups (`is_singular()`, `is_main_query()`, `get_option(...)`, the current
 post's `post_name`) are parameters. Strings are byte strings; each `char` stands for one byte.
 */
module InstareadPlayer {
  import opened PhpStrings
  import opened PhpArrays

  // ---------------------------------------------------------------------------
  // Selector sanitiser: deletes every byte outside the character class
  // `a-zA-Z0-9\s.#\->+~=^$|*,:` of the regular expression used by the plugin.
  // ---------------------------------------------------------------------------

  /** PCRE's `\s` without the UTF flag: space, tab, LF, vertical tab, form feed and CR. */
  predicate IsPcreSpace(c: char)
  {
    c == ' ' || c == '\t' || c == '\n' || c == '\U{0B}' || c == '\U{0C}' || c == '\r'
  }

  /** The characters a saved target selector may hold. */
  predicate IsSelectorChar(c: char)
  {
    || ('a' <= c <= 'z')
    || ('A' <= c <= 'Z')
    || ('0' <= c <= '9')
    || IsPcreSpace(c)
    || c in ".#->+~=^$|*,:"
  }

  /** `sanitize_css_selector`: the input with every character outside the allowed set deleted. */
  function SanitizeCssSelector(input: string): (r: string)
    ensures |r| <= |input|
    ensures forall k :: 0 <= k < |r| ==> IsSelectorChar(r[k])
  {
    if input == [] then []
    else if IsSelectorChar(input[0]) then [input[0]] + SanitizeCssSelector(input[1..])
    else SanitizeCssSelector(input[1..])
  }

  /** Sanitising works piece by piece: the result for a concatenation is the concatenation of the results. */
  lemma {:induction false} SanitizeConcat(a: string, b: string)
    ensures SanitizeCssSelector(a + b) == SanitizeCssSelector(a) + SanitizeCssSelector(b)
  {
    if a == [] {
      assert a + b == b;
    } else {
      assert (a + b)[0] == a[0] && (a + b)[1..] == a[1..] + b;
      SanitizeConcat(a[1..], b);
    }
  }

  /** An input made only of allowed characters comes back unchanged. */
  lemma {:induction false} SanitizeKeepsAllowed(s: string)
    requires forall k :: 0 <= k < |s| ==> IsSelectorChar(s[k])
    ensures SanitizeCssSelector(s) == s
  {
    if s != [] {
      SanitizeKeepsAllowed(s[1..]);
    }
  }

  /** Sanitising twice gives the same selector as sanitising once. */
  lemma SanitizeIdempotent(s: string)
    ensures SanitizeCssSelector(SanitizeCssSelector(s)) == SanitizeCssSelector(s)
  {
    SanitizeKeepsAllowed(SanitizeCssSelector(s));
  }

  /**
   Nothing is added and no allowed character is lost: each allowed character occurs in the
   result exactly as often as in the input, each other character not at all.
   */
  lemma {:induction false} SanitizeCounts(s: string, c: char)
    ensures multiset(SanitizeCssSelector(s))[c] == if IsSelectorChar(c) then multiset(s)[c] else 0
  {
    if s != [] {
      SanitizeCounts(s[1..], c);
      assert s == [s[0]] + s[1..];
    }
  }

  /** `r` can be obtained from `s` by deleting characters, keeping the order of the rest. */
  predicate IsSubsequence(r: string, s: string)
    decreases |s|
  {
    if r == [] then true
    else if s == [] then false
    else if r[0] == s[0] then IsSubsequence(r[1..], s[1..])
    else IsSubsequence(r, s[1..])
  }

  /** The sanitised selector is an order-preserving subsequence of the input. */
  lemma {:induction false} SanitizeIsSubsequence(s: string)
    ensures IsSubsequence(SanitizeCssSelector(s), s)
  {
    if s != [] {
      SanitizeIsSubsequence(s[1..]);
      var r := SanitizeCssSelector(s);
      if !IsSelectorChar(s[0]) && r != [] {
        assert IsSelectorChar(r[0]);
      }
    }
  }

  // ---------------------------------------------------------------------------
  // Insert-position sanitiser.
  // ---------------------------------------------------------------------------

  /** The three insert positions the player understands. */
  const InsertPositions: set<string> := {"prepend", "append", "inside"}

  /** `sanitize_insert_position`: keeps a known position, maps anything else to `append`. */
  function SanitizeInsertPosition(input: string): (r: string)
    ensures r in InsertPositions
    ensures r == input <==> input in InsertPositions
    ensures input !in InsertPositions ==> r == "append"
  {
    if input in InsertPositions then input else "append"
  }

  /** Sanitising a position twice gives the same as once. */
  lemma InsertPositionIdempotent(input: string)
    ensures SanitizeInsertPosition(SanitizeInsertPosition(input)) == SanitizeInsertPosition(input)
  {
  }

  // ---------------------------------------------------------------------------
  // Slug exclusion.
  // ---------------------------------------------------------------------------

  /**
   The excluded slugs, `array_map('trim', explode(',', ...))`: one entry per comma-separated
   field of the option (so one more than there are commas), none starting or ending with a
   trim character.
   */
  function ExcludedSlugs(excludeOption: string): (r: seq<string>)
    ensures |r| == multiset(excludeOption)[','] + 1
    ensures forall k :: 0 <= k < |r| ==> r[k] == [] || (!IsTrimChar(r[k][0]) && !IsTrimChar(r[k][|r[k]| - 1]))
  {
    var parts := Explode(',', excludeOption);
    ExplodeCount(',', excludeOption);
    seq(|parts|, k requires 0 <= k < |parts| => Trim(parts[k]))
  }

  /**
   `should_inject_player`: false off singular main-query views; otherwise true unless the
   post slug is, byte for byte, one of the excluded slugs.
   */
  function ShouldInjectPlayer(isSingular: bool, isMainQuery: bool, excludeOption: string, postName: string): (r: bool)
    ensures r ==> isSingular && isMainQuery
  {
    if !isSingular || !isMainQuery then false
    else postName !in ExcludedSlugs(excludeOption)
  }

  /**
   On a singular main-query view the player is left out exactly when some comma-delimited
   field of the option, once trimmed, equals the post slug. The slug itself is not trimmed.
   */
  lemma ExclusionRule(isSingular: bool, isMainQuery: bool, excludeOption: string, postName: string)
    requires isSingular && isMainQuery
    ensures !ShouldInjectPlayer(isSingular, isMainQuery, excludeOption, postName)
      <==> exists i, j :: IsField(',', excludeOption, i, j) && Trim(excludeOption[i..j]) == postName
  {
    var parts := Explode(',', excludeOption);
    if postName in ExcludedSlugs(excludeOption) {
      var k :| 0 <= k < |parts| && Trim(parts[k]) == postName;
      ExplodeFields(',', excludeOption, parts[k]);
    }
    if exists i, j :: IsField(',', excludeOption, i, j) && Trim(excludeOption[i..j]) == postName {
      var i, j :| IsField(',', excludeOption, i, j) && Trim(excludeOption[i..j]) == postName;
      ExplodeFields(',', excludeOption, excludeOption[i..j]);
      var k :| 0 <= k < |parts| && parts[k] == excludeOption[i..j];
      assert ExcludedSlugs(excludeOption)[k] == postName;
    }
  }

  /** The option `about, home` splits into `about` and ` home`. */
  lemma ExplodeExample(option: string)
    requires option == "about, home"
    ensures Explode(',', option) == ["about", " home"]
  {
    assert option[5] == ',' && option[..5] == "about";
    IndexOfIs(option, ',', 5);
    var rest := option[6..];
    assert rest == " home";
    assert ',' !in rest;
  }

  /** The entry ` home` trims to `home`. */
  lemma TrimExample(entry: string)
    requires entry == " home"
    ensures Trim(entry) == "home"
  {
    assert IsTrimChar(entry[0]) && entry[1..] == "home";
    TrimUnchanged("home");
  }

  /** The option `about, home` excludes the slugs `about` and `home`. */
  lemma ExcludedSlugsExample(option: string)
    requires option == "about, home"
    ensures ExcludedSlugs(option) == ["about", "home"]
  {
    TrimUnchanged("about");
    TrimExample(" home");
    ExplodeExample(option);
    ExcludedSlugsOfPair(option, "about", " home");
  }

  /** An option that splits into two pieces excludes the two trimmed pieces. */
  lemma ExcludedSlugsOfPair(option: string, a: string, b: string)
    requires Explode(',', option) == [a, b]
    ensures ExcludedSlugs(option) == [Trim(a), Trim(b)]
  {
    var slugs := ExcludedSlugs(option);
    assert |slugs| == 2 && slugs[0] == Trim(a) && slugs[1] == Trim(b);
  }

  /** With the option `about, home`, the slug `home` is excluded: its entry is trimmed. */
  lemma TrimmedEntryExample(option: string)
    requires option == "about, home"
    ensures !ShouldInjectPlayer(true, true, option, "home")
  {
    ExcludedSlugsExample(option);
  }

  /** With the option `about, home`, the slug `Home` is not excluded: the comparison is case-sensitive. */
  lemma CaseSensitiveExample(option: string)
    requires option == "about, home"
    ensures ShouldInjectPlayer(true, true, option, "Home")
  {
    ExcludedSlugsExample(option);
  }

  /** With the option `about, home`, the slug ` home` is not excluded: the slug itself is not trimmed. */
  lemma UntrimmedSlugExample(option: string)
    requires option == "about, home"
    ensures ShouldInjectPlayer(true, true, option, " home")
  {
    ExcludedSlugsExample(option);
  }

  // ---------------------------------------------------------------------------
  // Resource hints.
  // ---------------------------------------------------------------------------

  /** The origin the player script is loaded from. */
  const InstareadOrigin: string := "https://instaread.co"

  /** The origin is hinted for `dns-prefetch` and `preconnect` on singular views. */
  predicate HintsInstaread(relationType: string, isSingular: bool)
  {
    (relationType == "dns-prefetch" || relationType == "preconnect") && isSingular
  }

  /**
   The hint list after the conditional append, before duplicates are removed: the input
   list, untouched, followed by the origin exactly when it is to be hinted.
   */
  function HintedUrls(urls: seq<string>, relationType: string, isSingular: bool): (r: seq<string>)
    ensures |urls| <= |r| && r[..|urls|] == urls
    ensures |r| == |urls| + (if HintsInstaread(relationType, isSingular) then 1 else 0)
    ensures forall k :: |urls| <= k < |r| ==> r[k] == InstareadOrigin
  {
    if HintsInstaread(relationType, isSingular) then urls + [InstareadOrigin] else urls
  }

  /**
   `add_resource_hints`: appends the origin when it is to be hinted, then removes duplicates.
   The result has no duplicates, holds exactly the input's URLs plus, when hinted, the
   origin, and lists them in the order of their first occurrence.
   */
  method AddResourceHints(urls: seq<string>, relationType: string, isSingular: bool) returns (r: seq<string>)
    ensures r == Unique(HintedUrls(urls, relationType, isSingular))
    ensures NoDuplicates(r)
    ensures forall x :: x in r <==> x in urls || (x == InstareadOrigin && HintsInstaread(relationType, isSingular))
    ensures InFirstOccurrenceOrder(r, HintedUrls(urls, relationType, isSingular))
  {
    var hinted := urls;
    if HintsInstaread(relationType, isSingular) {
      hinted := hinted + [InstareadOrigin];
    }
    r := ArrayUnique(hinted);
    UniqueKeepsFirstOccurrenceOrder(hinted);
  }

  /**
   On a hint list without duplicates the filter changes nothing, except that it appends the
   origin when the origin is to be hinted and not yet listed.
   */
  lemma ResourceHintsOfDistinct(urls: seq<string>, relationType: string, isSingular: bool)
    requires NoDuplicates(urls)
    ensures Unique(HintedUrls(urls, relationType, isSingular))
      == if HintsInstaread(relationType, isSingular) && InstareadOrigin !in urls
         then urls + [InstareadOrigin] else urls
  {
    UniqueOfDistinct(urls);
    if HintsInstaread(relationType, isSingular) {
      assert (urls + [InstareadOrigin])[..|urls|] == urls;
    }
  }
}
