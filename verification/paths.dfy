/** Paths: JavaScript's `String.prototype.split` and `Array.prototype.join`
    over a separator, and the decimal index keys of array-like objects. */
module Paths {
  import opened Results

  /** `s.split(sep)`. An empty separator splits into single characters. */
  function Split(s: string, sep: string): (r: seq<string>)
    ensures sep != "" ==> |r| >= 1
    ensures Join(sep, r) == s
  {
    if sep == "" then Chars(s) else SplitOn(s, sep)
  }

  function Chars(s: string): (r: seq<string>)
    ensures |r| == |s|
    ensures forall i | 0 <= i < |s| :: r[i] == [s[i]]
    ensures Join("", r) == s
  {
    if s == "" then [] else [[s[0]]] + Chars(s[1..])
  }

  /** Splitting on a non-empty separator, scanning left to right as the
      JavaScript engine does: an occurrence that starts at the current
      position ends the current segment. */
  function SplitOn(s: string, sep: string): (r: seq<string>)
    requires sep != ""
    ensures |r| >= 1
    ensures Join(sep, r) == s
    decreases |s|
  {
    if |s| < |sep| then [s]
    else if s[..|sep|] == sep then
      var rest := SplitOn(s[|sep|..], sep);
      assert s == sep + s[|sep|..];
      [""] + rest
    else
      var rest := SplitOn(s[1..], sep);
      assert s == [s[0]] + s[1..];
      [[s[0]] + rest[0]] + rest[1..]
  }

  /** `parts.join(sep)`; the `join(sep, ...paths)` helper of the store. */
  function Join(sep: string, parts: seq<string>): string {
    if |parts| == 0 then ""
    else if |parts| == 1 then parts[0]
    else parts[0] + sep + Join(sep, parts[1..])
  }

  /** `join(sep, path, i)`: the path of element `i` of the array at `path`. */
  function JoinIndex(sep: string, path: string, i: int): string {
    Join(sep, [path, IntStr(i)])
  }

  predicate OccursAt(s: string, sep: string, i: int) {
    0 <= i && i + |sep| <= |s| && s[i..i + |sep|] == sep
  }

  /** A key splits back out of a joined path: no occurrence of the separator
      starts inside the key, even one running on into the separator that
      follows it. For a one-character separator this says the key does not
      contain that character. */
  predicate Clean(key: string, sep: string) {
    forall i | 0 <= i < |key| :: !OccursAt(key + sep, sep, i)
  }

  predicate AllClean(segs: seq<string>, sep: string) {
    forall i | 0 <= i < |segs| :: Clean(segs[i], sep)
  }

  lemma CleanTail(a: string, sep: string)
    requires |a| >= 1 && Clean(a, sep)
    ensures Clean(a[1..], sep)
  {
    forall i | 0 <= i < |a[1..]|
      ensures !OccursAt(a[1..] + sep, sep, i)
    {
      assert a[1..] + sep == (a + sep)[1..];
      assert !OccursAt(a + sep, sep, i + 1);
      if i + |sep| <= |a[1..] + sep| {
        assert (a[1..] + sep)[i..i + |sep|] == (a + sep)[i + 1..i + 1 + |sep|];
      }
    }
  }

  lemma {:induction false} SplitOnClean(a: string, sep: string)
    requires sep != "" && Clean(a, sep)
    ensures SplitOn(a, sep) == [a]
    decreases |a|
  {
    if |a| >= |sep| {
      assert (a + sep)[0..|sep|] == a[..|sep|];
      assert !OccursAt(a + sep, sep, 0);
      CleanTail(a, sep);
      SplitOnClean(a[1..], sep);
      assert [a[0]] + a[1..] == a;
    }
  }

  lemma {:induction false} SplitOnCleanPrefix(a: string, sep: string, rest: string)
    requires sep != "" && Clean(a, sep)
    ensures SplitOn(a + sep + rest, sep) == [a] + SplitOn(rest, sep)
    decreases |a|
  {
    var s := a + sep + rest;
    if a == "" {
      assert s[..|sep|] == sep;
      assert s[|sep|..] == rest;
    } else {
      assert s[..|sep|] == (a + sep)[0..|sep|];
      assert !OccursAt(a + sep, sep, 0);
      assert s[1..] == a[1..] + sep + rest;
      CleanTail(a, sep);
      SplitOnCleanPrefix(a[1..], sep, rest);
      assert [a[0]] + a[1..] == a;
    }
  }

  /** Splitting a path joined from clean segments gives the segments back. */
  lemma {:induction false} SplitJoin(segs: seq<string>, sep: string)
    requires sep != "" && |segs| >= 1 && AllClean(segs, sep)
    ensures Split(Join(sep, segs), sep) == segs
    decreases |segs|
  {
    if |segs| == 1 {
      SplitOnClean(segs[0], sep);
    } else {
      SplitOnCleanPrefix(segs[0], sep, Join(sep, segs[1..]));
      SplitJoin(segs[1..], sep);
      assert [segs[0]] + segs[1..] == segs;
    }
  }

  /** Two clean segment lists that join to the same path are the same list. */
  lemma JoinInjective(p: seq<string>, q: seq<string>, sep: string)
    requires sep != "" && |p| >= 1 && |q| >= 1
    requires AllClean(p, sep) && AllClean(q, sep)
    requires Join(sep, p) == Join(sep, q)
    ensures p == q
  {
    SplitJoin(p, sep);
    SplitJoin(q, sep);
  }

  /** Neither segment list extends the other: the two paths part ways at
      some segment, so they name disjoint parts of a tree. */
  predicate Diverge(p: seq<string>, q: seq<string>) {
    !(p <= q) && !(q <= p)
  }

  /** The empty path is one empty segment. */
  lemma EmptyPathIsOneSegment(sep: string)
    requires sep != ""
    ensures Split("", sep) == [""]
  {
  }

  /** With a one-character separator, appending a separator and a segment
      that does not contain it appends exactly that segment. */
  lemma {:induction false} SplitAppend(path: string, sep: string, d: string)
    requires |sep| == 1 && Clean(d, sep)
    ensures Split(path + sep + d, sep) == Split(path, sep) + [d]
    decreases |path|
  {
    var s := path + sep + d;
    if path == "" {
      assert s[..1] == sep;
      assert s[1..] == d;
      SplitOnClean(d, sep);
    } else {
      assert s[1..] == path[1..] + sep + d;
      assert s[..1] == path[..1];
      SplitAppend(path[1..], sep, d);
    }
  }

  // ---------------------------------------------------------------------
  // Decimal index keys

  predicate IsDigit(c: char) {
    '0' <= c <= '9'
  }

  predicate AllDigits(s: string) {
    forall i | 0 <= i < |s| :: IsDigit(s[i])
  }

  function DigitChar(d: nat): (c: char)
    requires d < 10
    ensures IsDigit(c)
  {
    (48 + d) as char
  }

  function DigitValue(c: char): (d: nat)
    requires IsDigit(c)
    ensures d < 10
  {
    c as int - 48
  }

  /** `String(n)` for a natural number. */
  function NatStr(n: nat): (r: string)
    ensures |r| >= 1 && AllDigits(r)
    ensures n >= 10 <==> |r| >= 2
    decreases n
  {
    if n < 10 then [DigitChar(n)] else NatStr(n / 10) + [DigitChar(n % 10)]
  }

  /** `String(i)` for an integer. */
  function IntStr(i: int): string {
    if i < 0 then "-" + NatStr(-i) else NatStr(i)
  }

  function DigitsValue(s: string): nat
    requires AllDigits(s)
  {
    if |s| == 0 then 0 else DigitsValue(s[..|s| - 1]) * 10 + DigitValue(s[|s| - 1])
  }

  /** Keys JavaScript treats as array indices: canonical decimal numerals. */
  predicate IsIndexKey(k: string) {
    |k| >= 1 && AllDigits(k) && (k[0] != '0' || |k| == 1)
  }

  /** The array index a key denotes, if it denotes one. */
  function ParseIndex(k: string): Option<nat> {
    if IsIndexKey(k) then Some(DigitsValue(k)) else None
  }

  lemma {:induction false} NatStrLeadingDigit(n: nat)
    ensures NatStr(n)[0] == '0' ==> n == 0
    decreases n
  {
    if n >= 10 {
      NatStrLeadingDigit(n / 10);
      assert NatStr(n)[0] == NatStr(n / 10)[0];
    }
  }

  /** Printing an index and parsing it back gives the index. */
  lemma {:induction false} ParseNatStr(n: nat)
    ensures ParseIndex(NatStr(n)) == Some(n)
    decreases n
  {
    NatStrLeadingDigit(n);
    var s := NatStr(n);
    if n < 10 {
      assert s[..|s| - 1] == [];
      assert DigitValue(DigitChar(n)) == n;
      assert DigitsValue(s) == DigitsValue([]) * 10 + DigitValue(s[0]);
      assert IsIndexKey(s);
    } else {
      ParseNatStr(n / 10);
      assert s[..|s| - 1] == NatStr(n / 10);
      assert DigitValue(DigitChar(n % 10)) == n % 10;
    }
  }

  lemma {:induction false} DigitsValuePositive(s: string)
    requires |s| >= 1 && AllDigits(s) && s[0] != '0'
    ensures DigitsValue(s) >= 1
    decreases |s|
  {
    if |s| > 1 {
      DigitsValuePositive(s[..|s| - 1]);
    }
  }

  /** An index key is the printed form of the index it denotes. */
  lemma {:induction false} NatStrParse(k: string)
    requires ParseIndex(k).Some?
    ensures NatStr(ParseIndex(k).value) == k
    decreases |k|
  {
    var n := DigitsValue(k);
    if |k| == 1 {
      assert k[..0] == [];
      assert n == DigitsValue([]) * 10 + DigitValue(k[0]);
      assert DigitChar(DigitValue(k[0])) == k[0];
      assert k == [k[0]];
    } else {
      var k' := k[..|k| - 1];
      DigitsValuePositive(k');
      NatStrParse(k');
      assert n / 10 == DigitsValue(k') && n % 10 == DigitValue(k[|k| - 1]);
      assert DigitChar(DigitValue(k[|k| - 1])) == k[|k| - 1];
      assert k == k' + [k[|k| - 1]];
    }
  }

  lemma NatStrInjective(a: nat, b: nat)
    ensures NatStr(a) == NatStr(b) ==> a == b
  {
    ParseNatStr(a);
    ParseNatStr(b);
  }

  /** Index keys are clean for a separator that does not start with a
      digit: no occurrence of it can start on a digit. */
  lemma NatStrClean(n: nat, sep: string)
    requires sep != "" && !IsDigit(sep[0])
    ensures Clean(NatStr(n), sep)
  {
    var s := NatStr(n);
    forall i | 0 <= i < |s|
      ensures !OccursAt(s + sep, sep, i)
    {
      assert (s + sep)[i] == s[i];
      if i + |sep| <= |s + sep| {
        assert (s + sep)[i..i + |sep|][0] == (s + sep)[i];
      }
    }
  }

  /** A key without the character of a one-character separator is clean,
      and splits to itself. */
  lemma SplitWithout(key: string, c: char)
    requires forall i | 0 <= i < |key| :: key[i] != c
    ensures Clean(key, [c])
    ensures Split(key, [c]) == [key]
  {
    forall i | 0 <= i < |key|
      ensures !OccursAt(key + [c], [c], i)
    {
      assert (key + [c])[i..i + 1] == [key[i]];
    }
    SplitOnClean(key, [c]);
  }

  /** No segment contains the character `c`. */
  predicate NoneContains(segs: seq<string>, c: char) {
    forall j, i | 0 <= j < |segs| && 0 <= i < |segs[j]| :: segs[j][i] != c
  }

  /** No segment of a split on one character contains that character. */
  lemma {:induction false} SplitOnOneChar(s: string, c: char)
    ensures NoneContains(SplitOn(s, [c]), c)
    decreases |s|
  {
    if |s| >= 1 {
      SplitOnOneChar(s[1..], c);
      var rest := SplitOn(s[1..], [c]);
      var r := SplitOn(s, [c]);
      if s[..1] == [c] {
        assert r == [""] + rest;
        forall j, i | 0 <= j < |r| && 0 <= i < |r[j]|
          ensures r[j][i] != c
        {
          assert r[j] == rest[j - 1];
          assert rest[j - 1][i] != c;
        }
      } else {
        assert s[0] != c;
        assert r == [[s[0]] + rest[0]] + rest[1..];
        forall j, i | 0 <= j < |r| && 0 <= i < |r[j]|
          ensures r[j][i] != c
        {
          if j == 0 {
            if i > 0 {
              assert r[0][i] == rest[0][i - 1];
            }
          } else {
            assert r[j] == rest[j];
            assert rest[j][i] != c;
          }
        }
      }
    }
  }

  /** A separator and an array path for which `join(sep, path, i)` splits
      into the path's segments followed by `i`: the separator is not empty,
      does not start with a digit, and every segment of the path is clean,
      so that no occurrence of the separator runs from the path's last
      segment into the separator `join` appends. */
  predicate ArraySep(sep: string, path: string) {
    sep != "" && !IsDigit(sep[0]) && AllClean(Split(path, sep), sep)
  }

  /** Every one-character separator that is not a digit meets `ArraySep`,
      whatever the path. */
  lemma OneCharArraySep(sep: string, path: string)
    requires |sep| == 1 && !IsDigit(sep[0])
    ensures ArraySep(sep, path)
  {
    var c := sep[0];
    assert sep == [c];
    var r := Split(path, sep);
    assert r == SplitOn(path, [c]);
    SplitOnOneChar(path, c);
    forall j | 0 <= j < |r|
      ensures Clean(r[j], sep)
    {
      assert forall i | 0 <= i < |r[j]| :: r[j][i] != c;
      SplitWithout(r[j], c);
    }
  }

  lemma {:induction false} JoinSnoc(sep: string, segs: seq<string>, d: string)
    requires |segs| >= 1
    ensures Join(sep, segs + [d]) == Join(sep, segs) + sep + d
    decreases |segs|
  {
    if |segs| > 1 {
      JoinSnoc(sep, segs[1..], d);
      assert (segs + [d])[1..] == segs[1..] + [d];
    }
  }

  /** The path of element `i >= 0` splits into the array's path and `i`. */
  lemma JoinIndexSplits(sep: string, path: string, i: nat)
    requires ArraySep(sep, path)
    ensures Split(JoinIndex(sep, path, i), sep) == Split(path, sep) + [NatStr(i)]
  {
    var segs := Split(path, sep);
    NatStrClean(i, sep);
    JoinIndexIs(sep, path, i);
    JoinSnoc(sep, segs, NatStr(i));
    assert AllClean(segs + [NatStr(i)], sep) by {
      forall j | 0 <= j < |segs + [NatStr(i)]|
        ensures Clean((segs + [NatStr(i)])[j], sep)
      {
        if j < |segs| {
          assert (segs + [NatStr(i)])[j] == segs[j];
        }
      }
    }
    SplitJoin(segs + [NatStr(i)], sep);
  }

  /** Why `ArraySep` asks for clean path segments: with separator `::` the
      path `a:` runs into the separator `join` appends, so the path of
      element 1 splits into `a` and `:1` rather than `a:` and `1`. */
  lemma ArraySepNeeded()
    ensures Split("a:", "::") == ["a:"]
    ensures Split(JoinIndex("::", "a:", 1), "::") == ["a", ":1"]
  {
    var sep := "::";
    assert SplitOn(":", sep) == [":"];
    assert "a:"[..2] != sep by { assert "a:"[0] == 'a'; }
    assert "a:"[1..] == ":";
    assert SplitOn("1", sep) == ["1"];
    assert ":1"[..2] != sep by { assert ":1"[1] == '1'; }
    assert ":1"[1..] == "1";
    assert SplitOn(":1", sep) == [":1"];
    var t := ":::1";
    assert t[..2] == sep;
    assert t[2..] == ":1";
    assert SplitOn(t, sep) == ["", ":1"];
    var s := "a:::1";
    assert s[..2] != sep by { assert s[0] == 'a'; }
    assert s[1..] == t;
    var rest := SplitOn(s[1..], sep);
    assert [s[0]] + rest[0] == "a" && rest[1..] == [":1"];
    assert SplitOn(s, sep) == ["a", ":1"];
    JoinIndexIs(sep, "a:", 1);
    assert NatStr(1) == "1";
    assert "a:" + sep + "1" == s;
  }

  /** The path of element `i` spelled out. */
  lemma JoinIndexIs(sep: string, path: string, i: nat)
    ensures JoinIndex(sep, path, i) == path + sep + NatStr(i)
  {
    assert IntStr(i) == NatStr(i);
    assert [path, NatStr(i)][1..] == [NatStr(i)];
    assert Join(sep, [NatStr(i)]) == NatStr(i);
    assert Join(sep, [path, NatStr(i)]) == path + sep + Join(sep, [NatStr(i)]);
  }
}
