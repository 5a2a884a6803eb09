/**
 The two PHP string built-ins that the slug-exclusion test of the plugin relies on:
 `explode` with a one-character delimiter and `trim` with its default character list.
 PHP strings are byte strings; here each `char` stands for one byte.
 `implode` is defined only as the inverse that `explode` is proved against.
 */
module PhpStrings {

  /** The characters PHP's `trim` strips by default: space, tab, LF, CR, NUL and vertical tab. */
  predicate IsTrimChar(c: char)
  {
    c == ' ' || c == '\t' || c == '\n' || c == '\r' || c == '\0' || c == '\U{0B}'
  }

  /** Position of the first occurrence of `sep` in `s`. */
  function IndexOf(s: string, sep: char): (i: nat)
    requires sep in s
    ensures i < |s| && s[i] == sep && sep !in s[..i]
  {
    if s[0] == sep then 0 else 1 + IndexOf(s[1..], sep)
  }

  /** The first occurrence of `sep` is the one with no `sep` before it. */
  lemma IndexOfIs(s: string, sep: char, i: nat)
    requires i < |s| && s[i] == sep && sep !in s[..i]
    ensures IndexOf(s, sep) == i
  {
  }

  /**
   `explode(sep, s)`: the pieces of `s` between occurrences of `sep`.
   An input without `sep` (the empty string included) gives one piece.
   */
  function Explode(sep: char, s: string): (parts: seq<string>)
    ensures |parts| >= 1
    decreases |s|
  {
    if sep !in s then [s]
    else
      var i := IndexOf(s, sep);
      [s[..i]] + Explode(sep, s[i + 1..])
  }

  /** No piece of `explode` holds the delimiter. */
  lemma {:induction false} ExplodePiecesLackSep(sep: char, s: string)
    ensures forall k :: 0 <= k < |Explode(sep, s)| ==> sep !in Explode(sep, s)[k]
    decreases |s|
  {
    if sep in s {
      var i := IndexOf(s, sep);
      ExplodePiecesLackSep(sep, s[i + 1..]);
    }
  }

  /** `explode` gives one more piece than there are delimiters. */
  lemma {:induction false} ExplodeCount(sep: char, s: string)
    ensures |Explode(sep, s)| == multiset(s)[sep] + 1
    decreases |s|
  {
    if sep in s {
      var i := IndexOf(s, sep);
      ExplodeCount(sep, s[i + 1..]);
      assert s == s[..i] + [sep] + s[i + 1..];
      assert multiset(s)[sep] == multiset(s[i + 1..])[sep] + 1;
    }
  }

  /** `implode(sep, parts)`: the pieces joined with `sep` between neighbours. */
  function Implode(sep: char, parts: seq<string>): string
  {
    if parts == [] then []
    else if |parts| == 1 then parts[0]
    else parts[0] + [sep] + Implode(sep, parts[1..])
  }

  /** Joining the pieces of `explode` gives back the original string. */
  lemma {:induction false} ImplodeExplode(sep: char, s: string)
    ensures Implode(sep, Explode(sep, s)) == s
    decreases |s|
  {
    if sep in s {
      var i := IndexOf(s, sep);
      ImplodeExplode(sep, s[i + 1..]);
      assert s == s[..i] + [sep] + s[i + 1..];
    }
  }

  /** Splitting a join of delimiter-free pieces gives back exactly those pieces. */
  lemma {:induction false} ExplodeImplode(sep: char, parts: seq<string>)
    requires |parts| >= 1
    requires forall k :: 0 <= k < |parts| ==> sep !in parts[k]
    ensures Explode(sep, Implode(sep, parts)) == parts
  {
    if |parts| > 1 {
      var rest := Implode(sep, parts[1..]);
      var s := parts[0] + [sep] + rest;
      assert s[|parts[0]|] == sep;
      assert s[..|parts[0]|] == parts[0];
      IndexOfIs(s, sep, |parts[0]|);
      assert s[|parts[0]| + 1..] == rest;
      ExplodeImplode(sep, parts[1..]);
    }
  }

  /**
   `s[i..j]` is one field of `s` with respect to `sep`: it starts at the beginning of `s`
   or just after a `sep`, ends at the end of `s` or just before a `sep`, and holds no `sep`.
   */
  predicate IsField(sep: char, s: string, i: int, j: int)
  {
    && 0 <= i <= j <= |s|
    && (i == 0 || s[i - 1] == sep)
    && (j == |s| || s[j] == sep)
    && forall m :: i <= m < j ==> s[m] != sep
  }

  /** No position inside a slice that lacks `sep` holds `sep`. */
  lemma NotInSlice(sep: char, s: string, i: int, j: int)
    requires 0 <= i <= j <= |s| && sep !in s[i..j]
    ensures forall m :: i <= m < j ==> s[m] != sep
  {
    forall m | i <= m < j ensures s[m] != sep {
      assert s[i..j][m - i] == s[m];
    }
  }

  /** A field of the text after a `sep` is a field of the whole text, shifted. */
  lemma ShiftField(sep: char, s: string, k: nat, i: int, j: int)
    requires k < |s| && s[k] == sep && IsField(sep, s[k + 1..], i, j)
    ensures IsField(sep, s, k + 1 + i, k + 1 + j)
    ensures s[k + 1 + i..k + 1 + j] == s[k + 1..][i..j]
  {
    assert s[k + 1 + i..k + 1 + j] == s[k + 1..][i..j];
  }

  /** A field of `s` lying after its first `sep` is a field of the text after that `sep`. */
  lemma UnshiftField(sep: char, s: string, k: nat, i: int, j: int)
    requires k < |s| && s[k] == sep && k < i && IsField(sep, s, i, j)
    ensures IsField(sep, s[k + 1..], i - k - 1, j - k - 1)
    ensures s[k + 1..][i - k - 1..j - k - 1] == s[i..j]
  {
    assert s[k + 1..][i - k - 1..j - k - 1] == s[i..j];
  }

  /** One step of `explode` on an input that holds `sep`. */
  lemma ExplodeStep(sep: char, s: string)
    requires sep in s
    ensures Explode(sep, s) == [s[..IndexOf(s, sep)]] + Explode(sep, s[IndexOf(s, sep) + 1..])
  {
  }

  /** A piece of the text after the first `sep` is a piece of the whole text. */
  lemma LaterPiece(sep: char, s: string, k: nat, p: string)
    requires sep in s && k == IndexOf(s, sep) && p in Explode(sep, s[k + 1..])
    ensures p in Explode(sep, s)
  {
    ExplodeStep(sep, s);
  }

  /** Every piece of `explode` is a field of the input. */
  lemma {:induction false} FieldOfExplode(sep: char, s: string, p: string)
    requires p in Explode(sep, s)
    ensures exists i, j :: IsField(sep, s, i, j) && s[i..j] == p
    decreases |s|
  {
    if sep !in s {
      assert IsField(sep, s, 0, |s|) && s[0..|s|] == p;
    } else {
      var k := IndexOf(s, sep);
      ExplodeStep(sep, s);
      if p == s[..k] {
        assert IsField(sep, s, 0, k) && s[0..k] == p;
      } else {
        FieldOfExplode(sep, s[k + 1..], p);
        var i, j :| IsField(sep, s[k + 1..], i, j) && s[k + 1..][i..j] == p;
        ShiftField(sep, s, k, i, j);
      }
    }
  }

  /** Without any `sep`, the only field is the whole text. */
  lemma OnlyField(sep: char, s: string, i: int, j: int)
    requires sep !in s && IsField(sep, s, i, j)
    ensures i == 0 && j == |s|
  {
    NotInSlice(sep, s, 0, |s|);
  }

  /** A field either ends at the first `sep` (and is the first field) or starts after it. */
  lemma FieldAroundFirstSep(sep: char, s: string, k: nat, i: int, j: int)
    requires k < |s| && s[k] == sep && sep !in s[..k] && IsField(sep, s, i, j)
    ensures (i == 0 && j == k) || k < i
  {
    NotInSlice(sep, s, 0, k);
  }

  /** Every field of the input is a piece of `explode`. */
  lemma {:induction false} ExplodeOfField(sep: char, s: string, i: int, j: int)
    requires IsField(sep, s, i, j)
    ensures s[i..j] in Explode(sep, s)
    decreases |s|, 1
  {
    if sep !in s {
      OnlyField(sep, s, i, j);
      assert s[i..j] == s;
    } else {
      var k := IndexOf(s, sep);
      FieldAroundFirstSep(sep, s, k, i, j);
      if i == 0 {
        ExplodeStep(sep, s);
        assert s[i..j] == s[..k];
      } else {
        ExplodeOfLaterField(sep, s, k, i, j);
      }
    }
  }

  /** A field after the first `sep` is a piece of the `explode` of the rest. */
  lemma {:induction false} ExplodeOfLaterField(sep: char, s: string, k: nat, i: int, j: int)
    requires sep in s && k == IndexOf(s, sep) && k < i && IsField(sep, s, i, j)
    ensures s[i..j] in Explode(sep, s)
    decreases |s|, 0
  {
    UnshiftField(sep, s, k, i, j);
    ExplodeOfField(sep, s[k + 1..], i - k - 1, j - k - 1);
    LaterPiece(sep, s, k, s[k + 1..][i - k - 1..j - k - 1]);
  }

  /** The pieces of `explode` are exactly the fields of the input. */
  lemma ExplodeFields(sep: char, s: string, p: string)
    ensures p in Explode(sep, s) <==> exists i, j :: IsField(sep, s, i, j) && s[i..j] == p
  {
    if p in Explode(sep, s) {
      FieldOfExplode(sep, s, p);
    }
    if exists i, j :: IsField(sep, s, i, j) && s[i..j] == p {
      var i, j :| IsField(sep, s, i, j) && s[i..j] == p;
      ExplodeOfField(sep, s, i, j);
    }
  }

  /** `ltrim`: drops the longest prefix made of trim characters. */
  function TrimLeft(s: string): (r: string)
    ensures |r| <= |s| && r == s[|s| - |r|..]
    ensures forall k :: 0 <= k < |s| - |r| ==> IsTrimChar(s[k])
    ensures r == [] || !IsTrimChar(r[0])
  {
    if s != [] && IsTrimChar(s[0]) then TrimLeft(s[1..]) else s
  }

  /** `rtrim`: drops the longest suffix made of trim characters. */
  function TrimRight(s: string): (r: string)
    ensures |r| <= |s| && r == s[..|r|]
    ensures forall k :: |r| <= k < |s| ==> IsTrimChar(s[k])
    ensures r == [] || !IsTrimChar(r[|r| - 1])
  {
    if s != [] && IsTrimChar(s[|s| - 1]) then TrimRight(s[..|s| - 1]) else s
  }

  /** `trim`: drops trim characters from both ends. */
  function Trim(s: string): (r: string)
    ensures |r| <= |s|
    ensures r == [] || (!IsTrimChar(r[0]) && !IsTrimChar(r[|r| - 1]))
  {
    TrimRight(TrimLeft(s))
  }

  /**
   The result of `trim` is the slice `s[i..i + |r|]` of its input: everything cut off at
   either end is a trim character, and the result neither starts nor ends with one.
   */
  lemma TrimIsSlice(s: string)
    ensures var r := Trim(s);
      && (r == [] || (!IsTrimChar(r[0]) && !IsTrimChar(r[|r| - 1])))
      && var i := |s| - |TrimLeft(s)|;
      && i + |r| <= |s|
      && r == s[i..i + |r|]
      && (forall k :: 0 <= k < i ==> IsTrimChar(s[k]))
      && (forall k :: i + |r| <= k < |s| ==> IsTrimChar(s[k]))
  {
    TrimSlice(s);
    TrimCutsTail(s);
  }

  /** `trim` returns the slice that starts where `ltrim` starts. */
  lemma TrimSlice(s: string)
    ensures Trim(s) == s[|s| - |TrimLeft(s)|..|s| - |TrimLeft(s)| + |Trim(s)|]
  {
  }

  /** Everything `trim` cuts off after its result is a trim character. */
  lemma TrimCutsTail(s: string)
    ensures forall k :: |s| - |TrimLeft(s)| + |Trim(s)| <= k < |s| ==> IsTrimChar(s[k])
  {
  }

  /** A string that neither starts nor ends with a trim character is its own `trim`. */
  lemma TrimUnchanged(s: string)
    requires s == [] || (!IsTrimChar(s[0]) && !IsTrimChar(s[|s| - 1]))
    ensures Trim(s) == s
  {
  }

  /** `trim` is idempotent. */
  lemma TrimIdempotent(s: string)
    ensures Trim(Trim(s)) == Trim(s)
  {
    TrimIsSlice(s);
    TrimUnchanged(Trim(s));
  }
}
