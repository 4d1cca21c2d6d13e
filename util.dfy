/** Sequence and string helpers shared by the game model. */
module Util {

  datatype Option<T> = None | Some(value: T)

  /** No element of `s` occurs twice. */
  predicate NoDup<T(==)>(s: seq<T>) {
    forall i, j :: 0 <= i < j < |s| ==> s[i] != s[j]
  }

  /** The set of elements of `s`. */
  function Elems<T>(s: seq<T>): set<T> {
    set x | x in s
  }

  /** A duplicate-free sequence has as many elements as its set of elements. */
  lemma {:induction false} DistinctCard<T>(s: seq<T>)
    requires NoDup(s)
    ensures |Elems(s)| == |s|
  {
    if s != [] {
      assert Elems(s) == {s[0]} + Elems(s[1..]);
      assert s[0] !in Elems(s[1..]) by {
        forall k | 0 <= k < |s[1..]| ensures s[1..][k] != s[0] {
          assert s[1..][k] == s[k + 1];
        }
      }
      DistinctCard(s[1..]);
    }
  }

  /** The number of `true` entries of `bs`, counted from the back. */
  function CountTrue(bs: seq<bool>): (k: nat)
    ensures k <= |bs|
    ensures k == 0 <==> forall i :: 0 <= i < |bs| ==> !bs[i]
    ensures k == |bs| <==> forall i :: 0 <= i < |bs| ==> bs[i]
  {
    if bs == [] then 0
    else
      var front := bs[..|bs| - 1];
      assert forall i :: 0 <= i < |front| ==> front[i] == bs[i];
      CountTrue(front) + (if bs[|bs| - 1] then 1 else 0)
  }

  /** `Array.prototype.join` with a one-character separator. */
  function Join(parts: seq<string>, sep: char): (s: string)
    ensures |parts| == 0 ==> s == ""
    ensures |parts| > 0 ==> |parts[0]| <= |s| && s[..|parts[0]|] == parts[0]
  {
    if |parts| == 0 then ""
    else if |parts| == 1 then parts[0]
    else parts[0] + [sep] + Join(parts[1..], sep)
  }

  /**
   * `String.prototype.split` with a one-character separator. It undoes `Join`
   * only on a non-empty list of parts none of which holds the separator
   * (`SplitJoin`): `Join(["a b"], ' ')` splits into `["a", "b"]`.
   */
  function Split(s: string, sep: char): (parts: seq<string>)
    ensures |parts| >= 1
    ensures forall i :: 0 <= i < |parts| ==> sep !in parts[i]
    decreases |s|
  {
    if |s| == 0 then [""]
    else
      var rest := Split(s[1..], sep);
      if s[0] == sep then [""] + rest
      else [[s[0]] + rest[0]] + rest[1..]
  }

  lemma {:induction false} SplitWithoutSeparator(t: string, sep: char)
    requires sep !in t
    ensures Split(t, sep) == [t]
    decreases |t|
  {
    if |t| > 0 {
      SplitWithoutSeparator(t[1..], sep);
      assert [t[0]] + t[1..] == t;
    }
  }

  lemma {:induction false} SplitAtFirstSeparator(t: string, sep: char, rest: string)
    requires sep !in t
    ensures Split(t + [sep] + rest, sep) == [t] + Split(rest, sep)
    decreases |t|
  {
    var s := t + [sep] + rest;
    if |t| == 0 {
      assert s[1..] == rest;
    } else {
      assert s[1..] == t[1..] + [sep] + rest;
      SplitAtFirstSeparator(t[1..], sep, rest);
      assert [t[0]] + t[1..] == t;
    }
  }

  /** Splitting a join recovers the parts when there is at least one and no part holds the separator. */
  lemma {:induction false} SplitJoin(parts: seq<string>, sep: char)
    requires |parts| >= 1
    requires forall i :: 0 <= i < |parts| ==> sep !in parts[i]
    ensures Split(Join(parts, sep), sep) == parts
    decreases |parts|
  {
    if |parts| == 1 {
      SplitWithoutSeparator(parts[0], sep);
    } else {
      SplitAtFirstSeparator(parts[0], sep, Join(parts[1..], sep));
      SplitJoin(parts[1..], sep);
    }
  }

  /** `String.prototype.includes` for a string argument: `sub` occurs in `s` at some position. */
  function HasSubstring(s: string, sub: string): (found: bool)
    ensures found ==> |sub| <= |s|
    ensures sub <= s ==> found
    decreases |s|
  {
    sub <= s || (s != [] && HasSubstring(s[1..], sub))
  }

  /** `sub` occurs in `s` starting at position `i`. */
  predicate OccursAt(s: string, sub: string, i: nat) {
    i + |sub| <= |s| && s[i..i + |sub|] == sub
  }

  /** A substring that `HasSubstring` finds occurs at some position. */
  lemma {:induction false} HasSubstringOccurs(s: string, sub: string) returns (i: nat)
    requires HasSubstring(s, sub)
    ensures OccursAt(s, sub, i)
    decreases |s|
  {
    if sub <= s {
      i := 0;
    } else {
      var j := HasSubstringOccurs(s[1..], sub);
      assert s[1..][j..j + |sub|] == s[j + 1..j + 1 + |sub|];
      i := j + 1;
    }
  }

  /** A substring occurring at any position is found by `HasSubstring`. */
  lemma {:induction false} OccursHasSubstring(s: string, sub: string, i: nat)
    requires OccursAt(s, sub, i)
    ensures HasSubstring(s, sub)
    decreases i
  {
    if i > 0 {
      assert s[1..][i - 1..i - 1 + |sub|] == s[i..i + |sub|];
      OccursHasSubstring(s[1..], sub, i - 1);
    }
  }
}
