/** String operations the server relies on: `String.prototype.trim` (the
    schemas' `trim: true`), case-insensitive containment (the search clause)
    and `String.prototype.split` with a one-character separator (the bearer
    header). */
module Text {

  /** The characters ECMAScript `trim` removes: WhiteSpace and LineTerminator. */
  predicate IsSpace(c: char)
  {
    || c == ' ' || c == '\t' || c == '\n' || c == '\r'
    || c == '\U{000B}' || c == '\U{000C}' || c == '\U{00A0}' || c == '\U{1680}'
    || ('\U{2000}' <= c <= '\U{200A}')
    || c == '\U{2028}' || c == '\U{2029}' || c == '\U{202F}' || c == '\U{205F}'
    || c == '\U{3000}' || c == '\U{FEFF}'
  }

  predicate AllSpace(s: string)
  {
    forall k :: 0 <= k < |s| ==> IsSpace(s[k])
  }

  /** No white space at either end. */
  predicate Trimmed(s: string)
  {
    s == [] || (!IsSpace(s[0]) && !IsSpace(s[|s| - 1]))
  }

  /** `s` with its leading white space removed. */
  function TrimStart(s: string): (r: string)
    ensures |r| <= |s| && r == s[|s| - |r|..]
    ensures AllSpace(s[..|s| - |r|])
    ensures r == [] || !IsSpace(r[0])
  {
    if |s| == 0 || !IsSpace(s[0]) then s
    else
      var r := TrimStart(s[1..]);
      assert s[1..][..|s[1..]| - |r|] == s[1..|s| - |r|];
      r
  }

  /** `s` with its trailing white space removed. */
  function TrimEnd(s: string): (r: string)
    ensures |r| <= |s| && r == s[..|r|]
    ensures AllSpace(s[|r|..])
    ensures r == [] || !IsSpace(r[|r| - 1])
  {
    if |s| == 0 || !IsSpace(s[|s| - 1]) then s
    else
      var r := TrimEnd(s[..|s| - 1]);
      assert s[..|s| - 1][|r|..] == s[|r|..|s| - 1];
      r
  }

  /** How much white space `s` starts with. */
  function Lead(s: string): (n: nat)
    ensures n <= |s| && AllSpace(s[..n])
  {
    |s| - |TrimStart(s)|
  }

  /** `s.trim()`: what is left of `s` once the white space at both ends is
      dropped; it neither starts nor ends with white space. */
  function Trim(s: string): (r: string)
    ensures Lead(s) + |r| <= |s|
    ensures r == s[Lead(s)..Lead(s) + |r|]
    ensures AllSpace(s[Lead(s) + |r|..])
    ensures Trimmed(r)
  {
    var a := TrimStart(s);
    var i := |s| - |a|;
    assert i == Lead(s) && a == s[i..];
    var r := TrimEnd(a);
    assert r == a[..|r|] == s[i..i + |r|];
    assert s[i + |r|..] == a[|r|..];
    assert r != [] ==> r[0] == a[0];
    r
  }

  /** Trimming an already trimmed string changes nothing. */
  lemma TrimIdempotent(s: string)
    ensures Trim(Trim(s)) == Trim(s)
  {
    var r := Trim(s);
    if r != [] {
      assert TrimStart(r) == r;
      assert TrimEnd(r) == r;
    }
  }

  /** The trimmed strings are exactly those `trim` leaves alone. */
  lemma TrimmedIsFixed(s: string)
    ensures Trimmed(s) <==> Trim(s) == s
  {
    if Trimmed(s) && s != [] {
      assert TrimStart(s) == s;
      assert TrimEnd(s) == s;
    }
  }

  /** `Trim(s)` is empty exactly when `s` is all white space: this is what
      makes a blank value fail a `required` string field after trimming. */
  lemma {:induction false} TrimEmptyIffBlank(s: string)
    ensures Trim(s) == [] <==> AllSpace(s)
  {
    var r := Trim(s);
    var i := Lead(s);
    if r == [] {
      assert s == s[..i] + s[i..];
    } else {
      assert !IsSpace(r[0]);
      assert s[i] == r[0];
    }
  }

  /** ASCII case folding, the part of the `i` regex flag this model keeps. */
  function Fold(c: char): (d: char)
    ensures 'A' <= c <= 'Z' ==> 'a' <= d <= 'z'
    ensures !('A' <= c <= 'Z') ==> d == c
  {
    if 'A' <= c <= 'Z' then (c as int + 32) as char else c
  }

  function FoldAll(s: string): (r: string)
    ensures |r| == |s|
    ensures forall k :: 0 <= k < |s| ==> r[k] == Fold(s[k])
  {
    seq(|s|, k requires 0 <= k < |s| => Fold(s[k]))
  }

  /** `p` occurs in `t` starting at index `i`. */
  ghost predicate OccursAt(t: string, p: string, i: int)
  {
    0 <= i && i + |p| <= |t| && t[i..i + |p|] == p
  }

  /** Literal substring search. */
  function Contains(t: string, p: string): (r: bool)
    ensures r <==> exists i :: OccursAt(t, p, i)
    decreases |t|
  {
    if |p| > |t| then
      assert forall i :: !OccursAt(t, p, i);
      false
    else if t[..|p|] == p then
      assert OccursAt(t, p, 0);
      true
    else
      var r := Contains(t[1..], p);
      if r then
        assert exists i :: OccursAt(t, p, i) by {
          var i :| OccursAt(t[1..], p, i);
          assert t[1..][i..i + |p|] == t[i + 1..i + 1 + |p|];
          assert OccursAt(t, p, i + 1);
        }
        r
      else
        assert !OccursAt(t, p, 0) by { assert t[..|p|] == t[0..0 + |p|]; }
        forall i | OccursAt(t, p, i) ensures OccursAt(t[1..], p, i - 1) {
          assert t[1..][i - 1..i - 1 + |p|] == t[i..i + |p|];
        }
        r
  }

  /** Case-insensitive containment: what `{ $regex: p, $options: 'i' }` does
      for a pattern without regular-expression metacharacters. */
  predicate ContainsIgnoringCase(t: string, p: string)
  {
    Contains(FoldAll(t), FoldAll(p))
  }

  /** The search is insensitive to the case of the text. */
  lemma ContainsIgnoringCaseOfFolded(t: string, p: string)
    ensures ContainsIgnoringCase(FoldAll(t), p) <==> ContainsIgnoringCase(t, p)
  {
    assert FoldAll(FoldAll(t)) == FoldAll(t);
  }

  predicate StartsWith(s: string, prefix: string)
  {
    |prefix| <= |s| && s[..|prefix|] == prefix
  }

  /** `s.split(sep)` for a one-character separator: the maximal pieces of `s`
      between occurrences of `sep`, always at least one piece. */
  function Split(s: string, sep: char): (r: seq<string>)
    ensures |r| >= 1
    ensures forall k :: 0 <= k < |r| ==> sep !in r[k]
    decreases |s|
  {
    if |s| == 0 then [""]
    else
      var rest := Split(s[1..], sep);
      if s[0] == sep then [""] + rest
      else [[s[0]] + rest[0]] + rest[1..]
  }

  /** `pieces.join(sep)`. */
  function Join(pieces: seq<string>, sep: char): string
    requires |pieces| >= 1
  {
    if |pieces| == 1 then pieces[0]
    else pieces[0] + [sep] + Join(pieces[1..], sep)
  }

  /** Splitting and joining again gives back the original string. */
  lemma {:induction false} SplitJoin(s: string, sep: char)
    ensures Join(Split(s, sep), sep) == s
    decreases |s|
  {
    if |s| > 0 {
      var rest := Split(s[1..], sep);
      SplitJoin(s[1..], sep);
      if s[0] == sep {
        assert Split(s, sep)[1..] == rest;
      } else {
        var r := Split(s, sep);
        if |rest| == 1 {
          assert r == [[s[0]] + rest[0]];
        } else {
          assert r[1..] == rest[1..];
          assert Join(rest, sep) == rest[0] + [sep] + Join(rest[1..], sep);
        }
        assert s == [s[0]] + s[1..];
      }
    }
  }

  /** The piece before the first `sep`. */
  function UpTo(s: string, sep: char): (r: string)
    ensures StartsWith(s, r) && sep !in r
    ensures |r| < |s| ==> s[|r|] == sep
  {
    if |s| == 0 || s[0] == sep then "" else [s[0]] + UpTo(s[1..], sep)
  }

  /** The first piece of a split is the text before the first separator. */
  lemma {:induction false} SplitFirst(s: string, sep: char)
    ensures Split(s, sep)[0] == UpTo(s, sep)
    decreases |s|
  {
    if |s| > 0 && s[0] != sep {
      SplitFirst(s[1..], sep);
    }
  }

  /** A prefix free of `sep` followed by `sep` is split off as the first piece. */
  lemma {:induction false} SplitAfterWord(w: string, sep: char, t: string)
    requires sep !in w
    ensures Split(w + [sep] + t, sep) == [w] + Split(t, sep)
    decreases |w|
  {
    if |w| == 0 {
      assert (w + [sep] + t)[1..] == t;
    } else {
      assert (w + [sep] + t)[1..] == w[1..] + [sep] + t;
      SplitAfterWord(w[1..], sep, t);
      assert [w[0]] + w[1..] == w;
    }
  }
}
