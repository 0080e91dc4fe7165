/**
  The three Go string operations the sampler uses: strings.Index,
  strings.Contains and strings.Join. A Go string is a byte sequence; here
  each character stands for one byte, so lengths agree for ASCII text.
 */
module Text {

  /** `key` occurs in `s` starting at position `i`. */
  predicate OccursAt(s: string, key: string, i: int)
  {
    0 <= i && i + |key| <= |s| && s[i..i + |key|] == key
  }

  /** strings.Index: the first position where `key` occurs in `s`, or -1. */
  function IndexOf(s: string, key: string): (r: int)
    ensures r == -1 || OccursAt(s, key, r)
    ensures r == -1 <==> forall i :: 0 <= i <= |s| ==> !OccursAt(s, key, i)
    ensures forall i :: 0 <= i < r ==> !OccursAt(s, key, i)
  {
    IndexFrom(s, key, 0)
  }

  function IndexFrom(s: string, key: string, from: nat): (r: int)
    requires from <= |s|
    ensures r == -1 || (from <= r && OccursAt(s, key, r))
    ensures r == -1 <==> forall i :: from <= i <= |s| ==> !OccursAt(s, key, i)
    ensures forall i :: from <= i < r ==> !OccursAt(s, key, i)
    decreases |s| - from
  {
    if OccursAt(s, key, from) then from
    else if from == |s| then -1
    else IndexFrom(s, key, from + 1)
  }

  /** strings.Contains. */
  predicate Contains(s: string, key: string)
  {
    IndexOf(s, key) >= 0
  }

  lemma ContainsIff(s: string, key: string)
    ensures Contains(s, key) <==> exists i :: OccursAt(s, key, i)
  {
  }

  /** strings.Join: the elements with `sep` between consecutive ones. */
  function Join(parts: seq<string>, sep: string): (r: string)
    ensures |parts| == 0 ==> r == ""
    ensures |parts| > 0 ==> |r| == TotalLength(parts) + (|parts| - 1) * |sep|
    ensures |parts| > 0 ==> r[..|parts[0]|] == parts[0]
  {
    if |parts| == 0 then ""
    else if |parts| == 1 then parts[0]
    else parts[0] + sep + Join(parts[1..], sep)
  }

  function TotalLength(parts: seq<string>): nat
  {
    if |parts| == 0 then 0 else |parts[0]| + TotalLength(parts[1..])
  }

  /** Where part `i` starts in the joined string: after each earlier part
      and the separator that follows it. */
  function JoinOffset(parts: seq<string>, sep: string, i: nat): nat
    requires i <= |parts|
  {
    if i == 0 then 0 else |parts[0]| + |sep| + JoinOffset(parts[1..], sep, i - 1)
  }

  /** The offset of part `i` is the length of the `i` earlier parts plus
      `i` separators. */
  lemma {:induction false} JoinOffsetClosedForm(parts: seq<string>, sep: string, i: nat)
    requires i <= |parts|
    ensures JoinOffset(parts, sep, i) == TotalLength(parts[..i]) + i * |sep|
  {
    if i == 0 {
      assert parts[..0] == [];
    } else {
      JoinOffsetClosedForm(parts[1..], sep, i - 1);
      assert parts[..i][1..] == parts[1..][..i - 1];
      assert i * |sep| == |sep| + (i - 1) * |sep|;
    }
  }

  /** Where each part lands in the joined string: part `i` starts at its
      offset, and a separator comes right before every part but the first.
      Together with the length of the join, this fixes every character. */
  lemma {:induction false} JoinLayout(parts: seq<string>, sep: string, i: nat)
    requires i < |parts|
    ensures OccursAt(Join(parts, sep), parts[i], JoinOffset(parts, sep, i))
    ensures i > 0 ==> OccursAt(Join(parts, sep), sep, JoinOffset(parts, sep, i) - |sep|)
  {
    if i == 0 {
      assert Join(parts, sep)[..|parts[0]|] == parts[0];
    } else {
      JoinLayout(parts[1..], sep, i - 1);
      JoinLayoutLater(parts, sep, i);
    }
  }

  /** The inductive step of JoinLayout: what holds in the join of the later
      parts holds, shifted, in the join of all of them. */
  lemma JoinLayoutLater(parts: seq<string>, sep: string, i: nat)
    requires 0 < i < |parts|
    requires OccursAt(Join(parts[1..], sep), parts[i], JoinOffset(parts[1..], sep, i - 1))
    requires i > 1 ==> OccursAt(Join(parts[1..], sep), sep, JoinOffset(parts[1..], sep, i - 1) - |sep|)
    ensures OccursAt(Join(parts, sep), parts[i], JoinOffset(parts, sep, i))
    ensures OccursAt(Join(parts, sep), sep, JoinOffset(parts, sep, i) - |sep|)
  {
    var toff := JoinOffset(parts[1..], sep, i - 1);
    assert JoinOffset(parts, sep, i) == |parts[0]| + |sep| + toff;
    ShiftIntoJoin(parts, sep, parts[i], toff);
    if i > 1 {
      ShiftIntoJoin(parts, sep, sep, toff - |sep|);
    } else {
      FirstSeparator(parts, sep);
    }
  }

  /** The first separator follows the first part. */
  lemma FirstSeparator(parts: seq<string>, sep: string)
    requires |parts| > 1
    ensures OccursAt(Join(parts, sep), sep, JoinOffset(parts, sep, 1) - |sep|)
  {
    assert JoinOffset(parts, sep, 1) == |parts[0]| + |sep|;
    JoinCons(parts, sep);
    SeparatorAfterHead(parts[0], sep, Join(parts[1..], sep));
  }

  /** An occurrence in the join of the later parts is one in the whole join,
      moved by the first part and one separator. */
  lemma ShiftIntoJoin(parts: seq<string>, sep: string, key: string, o: int)
    requires |parts| > 1
    requires OccursAt(Join(parts[1..], sep), key, o)
    ensures OccursAt(Join(parts, sep), key, |parts[0]| + |sep| + o)
  {
    JoinCons(parts, sep);
    ShiftOccurrence(parts[0] + sep, Join(parts[1..], sep), key, o);
  }

  lemma JoinCons(parts: seq<string>, sep: string)
    requires |parts| > 1
    ensures Join(parts, sep) == parts[0] + sep + Join(parts[1..], sep)
  {
  }

  lemma SeparatorAfterHead(first: string, sep: string, rest: string)
    ensures OccursAt(first + sep + rest, sep, |first|)
  {
    assert (first + sep + rest)[|first|..|first| + |sep|] == sep;
  }

  /** An occurrence in `b` is an occurrence in `a + b`, moved by `|a|`. */
  lemma ShiftOccurrence(a: string, b: string, key: string, i: int)
    requires OccursAt(b, key, i)
    ensures OccursAt(a + b, key, |a| + i)
  {
    assert (a + b)[|a| + i..|a| + i + |key|] == b[i..i + |key|];
  }
}
