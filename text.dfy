/**
 * String helpers shared by the dashboard and the supervisor: substring search
 * (JavaScript's `String.prototype.includes`), joining with a separator
 * (`Array.prototype.join` and Go's `strings.Join`) and splitting at a
 * separator character, which is what undoes a join.
 */
module Text {

  /** `t` occurs in `s` starting at index `i`. */
  ghost predicate OccursAt(s: string, t: string, i: int) {
    0 <= i && i + |t| <= |s| && s[i..i + |t|] == t
  }

  /** Does `t` occur anywhere in `s`? The empty string occurs in every string. */
  function Includes(s: string, t: string): (r: bool)
    ensures r <==> exists i :: OccursAt(s, t, i)
    decreases |s|
  {
    if t <= s then
      assert OccursAt(s, t, 0);
      true
    else if |s| == 0 then
      false
    else
      var r := Includes(s[1..], t);
      assert forall i :: OccursAt(s[1..], t, i) ==> OccursAt(s, t, i + 1);
      assert forall i :: OccursAt(s, t, i) ==> i >= 1 && OccursAt(s[1..], t, i - 1);
      r
  }

  /** `s` ends with `t`. */
  predicate EndsWith(s: string, t: string) {
    |t| <= |s| && s[|s| - |t|..] == t
  }

  /** `parts` joined with `sep` between consecutive elements; `[]` joins to "". */
  function Join(parts: seq<string>, sep: string): (joined: string)
    ensures |parts| == 0 ==> joined == ""
    ensures |parts| > 0 ==> parts[0] <= joined
  {
    if |parts| == 0 then ""
    else if |parts| == 1 then parts[0]
    else parts[0] + sep + Join(parts[1..], sep)
  }

  /** `s` cut at every occurrence of `sep`; like JavaScript's and Go's split, "" splits to [""]. */
  function Split(s: string, sep: char): (r: seq<string>)
    ensures |r| > 0
    decreases |s|
  {
    if |s| == 0 then [""]
    else if s[0] == sep then [""] + Split(s[1..], sep)
    else
      var rest := Split(s[1..], sep);
      [[s[0]] + rest[0]] + rest[1..]
  }

  /** A string without the separator splits to itself. */
  lemma {:induction false} SplitNoSeparator(s: string, sep: char)
    requires sep !in s
    ensures Split(s, sep) == [s]
    decreases |s|
  {
    if |s| > 0 {
      assert sep !in s[1..];
      SplitNoSeparator(s[1..], sep);
      assert [s[0]] + s[1..] == s;
    }
  }

  /** Splitting `a + [sep] + b` where `a` has no separator yields `a` followed by the pieces of `b`. */
  lemma {:induction false} SplitAfterField(a: string, sep: char, b: string)
    requires sep !in a
    ensures Split(a + [sep] + b, sep) == [a] + Split(b, sep)
    decreases |a|
  {
    if |a| == 0 {
      assert a + [sep] + b == [sep] + b;
      assert ([sep] + b)[1..] == b;
    } else {
      var s := a + [sep] + b;
      assert s[0] == a[0] && s[0] != sep;
      assert s[1..] == a[1..] + [sep] + b;
      assert sep !in a[1..];
      SplitAfterField(a[1..], sep, b);
      assert [a[0]] + a[1..] == a;
    }
  }

  /** Four separator-free fields joined by the separator split back into those fields. */
  lemma SplitFourFields(f1: string, f2: string, f3: string, f4: string, sep: char)
    requires sep !in f1 && sep !in f2 && sep !in f3 && sep !in f4
    ensures Split(f1 + [sep] + f2 + [sep] + f3 + [sep] + f4, sep) == [f1, f2, f3, f4]
  {
    var tail3 := f3 + [sep] + f4;
    var tail2 := f2 + [sep] + tail3;
    assert f1 + [sep] + f2 + [sep] + f3 + [sep] + f4 == f1 + [sep] + tail2;
    SplitNoSeparator(f4, sep);
    SplitAfterField(f3, sep, f4);
    SplitAfterField(f2, sep, tail3);
    SplitAfterField(f1, sep, tail2);
  }

  /** A character absent from every part and from the separator is absent from the join. */
  lemma {:induction false} JoinExcludes(parts: seq<string>, sep: string, c: char)
    requires c !in sep
    requires forall p :: p in parts ==> c !in p
    ensures c !in Join(parts, sep)
  {
    if |parts| > 1 {
      assert parts[0] in parts;
      assert forall p :: p in parts[1..] ==> p in parts;
      JoinExcludes(parts[1..], sep, c);
    } else if |parts| == 1 {
      assert parts[0] in parts;
    }
  }

  /**
   * Splitting undoes joining with a one-character separator, provided no part
   * contains that character and the list is not empty ([] and [""] both join to "").
   */
  lemma {:induction false} SplitJoin(parts: seq<string>, sep: char)
    requires |parts| > 0
    requires forall p :: p in parts ==> sep !in p
    ensures Split(Join(parts, [sep]), sep) == parts
  {
    assert parts[0] in parts;
    if |parts| == 1 {
      SplitNoSeparator(parts[0], sep);
    } else {
      assert forall p :: p in parts[1..] ==> p in parts;
      SplitJoin(parts[1..], sep);
      SplitAfterField(parts[0], sep, Join(parts[1..], [sep]));
      assert [parts[0]] + parts[1..] == parts;
    }
  }

  /** Every part of a join occurs in the joined string. */
  lemma {:induction false} JoinIncludesParts(parts: seq<string>, sep: string, k: nat)
    requires k < |parts|
    ensures Includes(Join(parts, sep), parts[k])
  {
    var j := Join(parts, sep);
    if |parts| == 1 {
      assert OccursAt(j, parts[0], 0);
    } else if k == 0 {
      assert j[0..|parts[0]|] == parts[0];
      assert OccursAt(j, parts[0], 0);
    } else {
      JoinIncludesParts(parts[1..], sep, k - 1);
      var rest := Join(parts[1..], sep);
      var i :| OccursAt(rest, parts[k], i);
      var off := |parts[0]| + |sep|;
      assert j == parts[0] + sep + rest;
      assert j[off + i..off + i + |parts[k]|] == rest[i..i + |parts[k]|];
      assert OccursAt(j, parts[k], off + i);
    }
  }

  /** Text embedded between a prefix and a suffix occurs in the result. */
  lemma IncludesInfix(p: string, t: string, q: string)
    ensures Includes(p + t + q, t)
  {
    var s := p + t + q;
    assert s[|p|..|p| + |t|] == t;
    assert OccursAt(s, t, |p|);
  }

  /** What occurs in a middle piece occurs in the whole. */
  lemma IncludesWithin(p: string, t: string, q: string, x: string)
    requires Includes(t, x)
    ensures Includes(p + t + q, x)
  {
    var i :| OccursAt(t, x, i);
    var s := p + t + q;
    assert s[|p| + i..|p| + i + |x|] == t[i..i + |x|];
    assert OccursAt(s, x, |p| + i);
  }
}
