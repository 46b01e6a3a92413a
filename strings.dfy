/** The two `str` operations thumbnail/views.py applies to a stored file name:
    `split` on one separator character and `replace(old, '')`. */
module Strings {

  /** Glues parts back together with `sep` between consecutive parts
      (Python's `sep.join(parts)`). */
  function Join(parts: seq<string>, sep: char): string
    requires |parts| >= 1
  {
    if |parts| == 1 then parts[0] else parts[0] + [sep] + Join(parts[1..], sep)
  }

  /** Python's `s.split(sep)` for a one-character separator: never empty, no part
      holds the separator, and joining the parts gives `s` back. */
  function Split(s: string, sep: char): (parts: seq<string>)
    ensures |parts| >= 1
    ensures forall i :: 0 <= i < |parts| ==> sep !in parts[i]
    ensures Join(parts, sep) == s
    decreases |s|
  {
    if |s| == 0 then [""]
    else
      var rest := Split(s[1..], sep);
      if s[0] == sep then [""] + rest
      else
        var first := [s[0]] + rest[0];
        assert |rest| > 1 ==> Join(rest, sep) == rest[0] + [sep] + Join(rest[1..], sep);
        [first] + rest[1..]
  }

  /** `s.split(sep)[-1]`. */
  function LastToken(s: string, sep: char): string
  {
    var parts := Split(s, sep);
    parts[|parts| - 1]
  }

  /** The last token is the longest suffix of `s` without `sep`: the text
      after the last `sep`, or all of `s` when there is none. */
  lemma LastTokenIsSuffix(s: string, sep: char)
    ensures var t := LastToken(s, sep);
            |t| <= |s| && s[|s| - |t|..] == t && sep !in t &&
            (|t| < |s| ==> s[|s| - |t| - 1] == sep)
  {
    JoinEndsWithLast(Split(s, sep), sep);
  }

  /** The joined text ends with the last part, preceded by `sep` when there
      are several parts. */
  lemma {:induction false} JoinEndsWithLast(parts: seq<string>, sep: char)
    requires |parts| >= 1
    ensures var j, t := Join(parts, sep), parts[|parts| - 1];
            |t| <= |j| && j[|j| - |t|..] == t && (|parts| > 1 ==> |t| < |j| && j[|j| - |t| - 1] == sep)
  {
    if |parts| > 1 {
      JoinEndsWithLast(parts[1..], sep);
      var j, t := Join(parts, sep), parts[|parts| - 1];
      var rest := Join(parts[1..], sep);
      assert j == parts[0] + [sep] + rest;
      assert parts[1..][|parts[1..]| - 1] == t;
      assert j[|j| - |rest|..] == rest;
      if |parts| == 2 {
        assert rest == t;
      }
    }
  }

  /** A string without the separator splits into itself alone. */
  lemma SplitWithoutSep(s: string, sep: char)
    requires sep !in s
    ensures Split(s, sep) == [s]
  {
    // follows from the contract of Split: a second part would put `sep` in `s`
  }

  /** Whatever comes before the last separator, the last token is what follows it. */
  lemma {:induction false} LastTokenAfterSep(p: string, sep: char, q: string)
    requires sep !in q
    ensures LastToken(p + [sep] + q, sep) == q
  {
    var s := p + [sep] + q;
    if p == [] {
      assert s[1..] == q;
      SplitWithoutSep(q, sep);
    } else {
      assert s[1..] == p[1..] + [sep] + q;
      LastTokenAfterSep(p[1..], sep, q);
      var rest := Split(s[1..], sep);
      if |rest| == 1 {
        assert false;
      }
    }
  }

  /** The last token is the text after a `sep` that no later `sep` follows. */
  lemma LastTokenAt(s: string, sep: char, k: nat)
    requires k < |s| && s[k] == sep && sep !in s[k + 1..]
    ensures LastToken(s, sep) == s[k + 1..]
  {
    assert s == s[..k] + [sep] + s[k + 1..];
    LastTokenAfterSep(s[..k], sep, s[k + 1..]);
  }

  /** Python's `s.replace(pat, '')`: scans left to right and deletes every
      non-overlapping occurrence of `pat`. */
  function RemoveAll(s: string, pat: string): (r: string)
    requires |pat| > 0
    ensures |r| <= |s|
    decreases |s|
  {
    if |s| == 0 then s
    else if |pat| <= |s| && s[..|pat|] == pat then RemoveAll(s[|pat|..], pat)
    else [s[0]] + RemoveAll(s[1..], pat)
  }

  /** `pat` occurs in `s` starting at index `k`. */
  predicate OccursAt(s: string, pat: string, k: nat)
  {
    k + |pat| <= |s| && s[k..k + |pat|] == pat
  }

  /** With no occurrence of `pat` in `s`, nothing is removed. */
  lemma {:induction false} RemoveAllAbsent(s: string, pat: string)
    requires |pat| > 0
    requires forall k: nat :: !OccursAt(s, pat, k)
    ensures RemoveAll(s, pat) == s
  {
    if |s| > 0 {
      assert !OccursAt(s, pat, 0);
      forall k: nat
        ensures !OccursAt(s[1..], pat, k)
      {
        assert !OccursAt(s, pat, k + 1);
        if k + |pat| <= |s[1..]| {
          assert s[1..][k..k + |pat|] == s[k + 1..k + 1 + |pat|];
        }
      }
      RemoveAllAbsent(s[1..], pat);
    }
  }

  /** Deleting starts at the first occurrence: the text before it is kept and
      scanning resumes right after it. With `RemoveAllAbsent` this pins down
      the result for every input. */
  lemma {:induction false} RemoveAllFirst(x: string, pat: string, y: string)
    requires |pat| > 0
    requires forall k: nat :: k < |x| ==> !OccursAt(x + pat + y, pat, k)
    ensures RemoveAll(x + pat + y, pat) == x + RemoveAll(y, pat)
  {
    var s := x + pat + y;
    if x == [] {
      assert s[..|pat|] == pat && s[|pat|..] == y;
    } else {
      assert !OccursAt(s, pat, 0);
      assert s[1..] == x[1..] + pat + y;
      forall k: nat | k < |x[1..]| ensures !OccursAt(x[1..] + pat + y, pat, k) {
        assert !OccursAt(s, pat, k + 1);
        if k + |pat| <= |s[1..]| {
          assert s[1..][k..k + |pat|] == s[k + 1..k + 1 + |pat|];
        }
      }
      RemoveAllFirst(x[1..], pat, y);
    }
  }

  /** One left-to-right pass: deleting an occurrence can join its neighbours
      into a new one, which stays ("x.j" + ".jpg" + "pg" gives "x.jpg"). */
  lemma RemoveAllSinglePass()
    ensures RemoveAll("x.j" + Jpg + "pg", Jpg) == "x.j" + "pg"
  {
    var x, y := "x.j", "pg";
    forall k: nat | k < |x| ensures !OccursAt(x + Jpg + y, Jpg, k) {
      var s := x + Jpg + y;
      assert s == "x.j.jpgpg";
      if k == 1 {
        assert s[k..k + 4][2] == s[3] == '.' != Jpg[2];
      } else {
        assert s[k..k + 4][0] == s[k] != '.';
      }
    }
    RemoveAllFirst(x, Jpg, y);
    assert !OccursAt(y, Jpg, 0);
    RemoveAllAbsent(y, Jpg);
  }

  const Jpg: string := ".jpg"

  /** A trailing ".jpg" after text without the letter 'j' is removed and nothing
      else is: no occurrence can start inside such text. */
  lemma {:induction false} RemoveJpgSuffix(x: string)
    requires 'j' !in x
    ensures RemoveAll(x + Jpg, Jpg) == x
  {
    var s := x + Jpg;
    if x == [] {
      assert s[..4] == Jpg && s[4..] == [];
    } else {
      assert s[1] != 'j';
      assert s[..4] != Jpg;
      assert s[1..] == x[1..] + Jpg;
      RemoveJpgSuffix(x[1..]);
    }
  }
}
