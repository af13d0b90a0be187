/** Byte streams and the reference notion of cutting a stream at a tag.

    `LeftmostSplit` is what every tag splitter of the capture tools is measured
    against: scan from the left, cut at the first occurrence of the tag, drop the
    tag, go on with what follows it. */
module Splitting {
  import opened Sequences

  type byte = b: int | 0 <= b < 256

  /** What a stream is cut at. */
  type Tag = t: seq<byte> | t != [] witness [0]

  /** The marker `_zpl_ctf_start__` that a device sends when it starts a trace. */
  const CTF_TAG: seq<byte> :=
    [0x5f, 0x7a, 0x70, 0x6c, 0x5f, 0x63, 0x74, 0x66, 0x5f, 0x73, 0x74, 0x61, 0x72, 0x74, 0x5f, 0x5f]

  ghost predicate TagAt(tag: seq<byte>, s: seq<byte>, i: int) {
    0 <= i && i + |tag| <= |s| && s[i..i + |tag|] == tag
  }

  /** Position of the first occurrence of `tag` at or after `from`, or -1. */
  function FindFrom(tag: seq<byte>, s: seq<byte>, from: nat): (r: int)
    ensures r == -1 ==> forall i :: from <= i ==> !TagAt(tag, s, i)
    ensures r != -1 ==> from <= r && TagAt(tag, s, r) && forall i :: from <= i < r ==> !TagAt(tag, s, i)
    decreases |s| - from
  {
    if from + |tag| > |s| then -1
    else if s[from..from + |tag|] == tag then from
    else FindFrom(tag, s, from + 1)
  }

  /** `s.find(tag)`. */
  function Find(tag: seq<byte>, s: seq<byte>): (r: int)
    ensures r == -1 ==> forall i :: !TagAt(tag, s, i)
    ensures r != -1 ==> TagAt(tag, s, r) && forall i :: i < r ==> !TagAt(tag, s, i)
  {
    FindFrom(tag, s, 0)
  }

  function LeftmostSplit(tag: Tag, s: seq<byte>): (pieces: seq<seq<byte>>)
    ensures pieces != []
    decreases |s|
  {
    var i := Find(tag, s);
    if i == -1 then [s] else [s[..i]] + LeftmostSplit(tag, s[i + |tag|..])
  }

  function Join(tag: seq<byte>, pieces: seq<seq<byte>>): seq<byte>
    requires pieces != []
  {
    if |pieces| == 1 then pieces[0] else pieces[0] + tag + Join(tag, pieces[1..])
  }

  function Concat(parts: seq<seq<byte>>): seq<byte> {
    if parts == [] then [] else parts[0] + Concat(parts[1..])
  }

  /** Pieces that are cut out by leftmost scanning: in every piece followed by a tag,
      the first occurrence of the tag is that very tag; the last piece has none. */
  ghost predicate Cuts(tag: seq<byte>, pieces: seq<seq<byte>>)
    requires pieces != []
  {
    && Find(tag, Last(pieces)) == -1
    && forall k :: 0 <= k < |pieces| - 1 ==> Find(tag, pieces[k] + tag) == |pieces[k]|
  }

  // -------------------------------------------------------------- searching

  /** A first occurrence stays first when the stream grows. */
  lemma FindAppend(tag: seq<byte>, s: seq<byte>, t: seq<byte>)
    requires Find(tag, s) != -1
    ensures Find(tag, s + t) == Find(tag, s)
  {
    var i := Find(tag, s);
    TagAtPrefix(tag, s, t, i);
    var j := Find(tag, s + t);
    if j < i {
      TagAtPrefix(tag, s, t, j);
    }
  }

  /** Whether the tag is at `i` depends only on the bytes up to its end. */
  lemma TagAtPrefix(tag: seq<byte>, s: seq<byte>, t: seq<byte>, i: int)
    requires i + |tag| <= |s|
    ensures TagAt(tag, s + t, i) <==> TagAt(tag, s, i)
  {
    if 0 <= i {
      assert (s + t)[i..i + |tag|] == s[i..i + |tag|];
    }
  }

  /** ... and only on the bytes from its start. */
  lemma TagAtSuffix(tag: seq<byte>, d: seq<byte>, s: seq<byte>, i: int)
    requires |d| <= i
    ensures TagAt(tag, d + s, i) <==> TagAt(tag, s, i - |d|)
  {
    if i + |tag| <= |d| + |s| {
      assert (d + s)[i..i + |tag|] == s[i - |d|..i - |d| + |tag|];
    }
  }

  lemma NoTagInSuffix(tag: seq<byte>, a: seq<byte>, s: seq<byte>)
    requires Find(tag, a + s) == -1
    ensures Find(tag, s) == -1
  {
    if Find(tag, s) != -1 {
      TagAtSuffix(tag, a, s, Find(tag, s) + |a|);
    }
  }

  /** A tag inside a window of a stream is a tag of the stream. */
  lemma TagInWindow(tag: seq<byte>, a: seq<byte>, s: seq<byte>, z: seq<byte>)
    ensures Find(tag, s) != -1 ==> Find(tag, a + s + z) != -1
  {
    if Find(tag, s) != -1 {
      TagAtSuffix(tag, a, s, Find(tag, s) + |a|);
      FindAppend(tag, a + s, z);
    }
  }

  /** Where the first occurrence is, when it is known to be one and nothing is before it. */
  lemma FindIs(tag: seq<byte>, s: seq<byte>, i: int)
    requires TagAt(tag, s, i)
    requires forall j :: 0 <= j < i ==> !TagAt(tag, s, j)
    ensures Find(tag, s) == i
  {
  }

  lemma FindNone(tag: seq<byte>, s: seq<byte>)
    requires forall j :: 0 <= j && j + |tag| <= |s| ==> !TagAt(tag, s, j)
    ensures Find(tag, s) == -1
  {
  }

  // --------------------------------------------------------------- splitting

  lemma OnePiece(tag: Tag, s: seq<byte>)
    ensures LeftmostSplit(tag, s) == [s] <==> Find(tag, s) == -1
    ensures |LeftmostSplit(tag, s)| == 1 <==> Find(tag, s) == -1
  {
  }

  lemma SplitAt(tag: Tag, a: seq<byte>, rest: seq<byte>)
    requires Find(tag, a + tag + rest) == |a|
    ensures LeftmostSplit(tag, a + tag + rest) == [a] + LeftmostSplit(tag, rest)
  {
    var s := a + tag + rest;
    assert s[..|a|] == a;
    assert s[|a| + |tag|..] == rest;
  }

  lemma FindSplits(tag: Tag, s: seq<byte>)
    requires Find(tag, s) != -1
    ensures s == s[..Find(tag, s)] + tag + s[Find(tag, s) + |tag|..]
  {
  }

  /** Joining undoes splitting, and the split is a leftmost cut. */
  lemma {:induction false} SplitJoin(tag: Tag, s: seq<byte>)
    ensures Join(tag, LeftmostSplit(tag, s)) == s
    ensures Cuts(tag, LeftmostSplit(tag, s))
    decreases |s|
  {
    var i := Find(tag, s);
    if i != -1 {
      var a, rest := s[..i], s[i + |tag|..];
      FindSplits(tag, s);
      SplitJoin(tag, rest);
      FindWithin(tag, a + tag, rest);
      CutsCons(tag, a, LeftmostSplit(tag, rest));
    }
  }

  lemma FindWithin(tag: seq<byte>, s: seq<byte>, t: seq<byte>)
    requires Find(tag, s + t) != -1
    requires Find(tag, s + t) + |tag| <= |s|
    ensures Find(tag, s) == Find(tag, s + t)
  {
    TagAtPrefix(tag, s, t, Find(tag, s + t));
    TagAtPrefix(tag, s, t, Find(tag, s));
  }

  lemma CutsCons(tag: seq<byte>, a: seq<byte>, pieces: seq<seq<byte>>)
    requires pieces != []
    ensures Join(tag, [a] + pieces) == a + tag + Join(tag, pieces)
    ensures Cuts(tag, [a] + pieces) <==> Find(tag, a + tag) == |a| && Cuts(tag, pieces)
  {
    var all := [a] + pieces;
    ConsParts(a, pieces);
    assert Last(all) == Last(pieces);
    assert forall k :: 0 <= k < |pieces| ==> all[k + 1] == pieces[k];
    if Cuts(tag, all) {
      assert Find(tag, all[0] + tag) == |all[0]|;
      forall k | 0 <= k < |pieces| - 1
        ensures Find(tag, pieces[k] + tag) == |pieces[k]|
      {
        assert pieces[k] == all[k + 1];
      }
    }
  }

  /** The split is the only leftmost cut of a stream. */
  lemma {:induction false} SplitUnique(tag: Tag, pieces: seq<seq<byte>>)
    requires pieces != [] && Cuts(tag, pieces)
    ensures LeftmostSplit(tag, Join(tag, pieces)) == pieces
    decreases |pieces|
  {
    var a, rest := pieces[0], pieces[1..];
    assert pieces == [a] + rest;
    if rest != [] {
      CutsCons(tag, a, rest);
      SplitUnique(tag, rest);
      FindAppend(tag, a + tag, Join(tag, rest));
      SplitAt(tag, a, Join(tag, rest));
    }
  }

  /** Splitting can be done incrementally: all pieces but the last are final. */
  lemma {:induction false} SplitAppend(tag: Tag, s: seq<byte>, t: seq<byte>)
    ensures LeftmostSplit(tag, s + t)
         == Init(LeftmostSplit(tag, s)) + LeftmostSplit(tag, Last(LeftmostSplit(tag, s)) + t)
    decreases |s|
  {
    var i := Find(tag, s);
    var pieces := LeftmostSplit(tag, s);
    if i == -1 {
      assert Init(pieces) == [];
    } else {
      var a, rest := s[..i], s[i + |tag|..];
      FindSplits(tag, s);
      FindAppend(tag, s, t);
      assert s + t == a + tag + (rest + t);
      SplitAt(tag, a, rest);
      SplitAt(tag, a, rest + t);
      hide LeftmostSplit, Find, FindFrom;
      SplitAppend(tag, rest, t);
      AppendToLast([a], LeftmostSplit(tag, rest), LeftmostSplit(tag, Last(LeftmostSplit(tag, rest)) + t));
    }
  }

  /** Bytes in which no occurrence starts only lengthen the first piece. */
  lemma {:induction false} SplitDropPrefix(tag: Tag, d: seq<byte>, s: seq<byte>)
    requires forall i :: 0 <= i < |d| ==> !TagAt(tag, d + s, i)
    ensures LeftmostSplit(tag, d + s)
         == [d + LeftmostSplit(tag, s)[0]] + LeftmostSplit(tag, s)[1..]
  {
    FindShift(tag, d, s);
    if Find(tag, s) == -1 {
      ConsParts(s, []);
    } else {
      var a, rest := s[..Find(tag, s)], s[Find(tag, s) + |tag|..];
      FindSplits(tag, s);
      DropPrefixBeforeTag(tag, d, a, rest);
    }
  }

  lemma {:induction false} DropPrefixBeforeTag(tag: Tag, d: seq<byte>, a: seq<byte>, rest: seq<byte>)
    requires Find(tag, a + tag + rest) == |a| && Find(tag, d + (a + tag + rest)) == |d| + |a|
    ensures LeftmostSplit(tag, d + (a + tag + rest))
         == [d + LeftmostSplit(tag, a + tag + rest)[0]] + LeftmostSplit(tag, a + tag + rest)[1..]
  {
    var tail := LeftmostSplit(tag, rest);
    assert LeftmostSplit(tag, d + (a + tag + rest)) == [d + a] + tail by {
      Assoc(d, a, tag, rest);
      SplitAt(tag, d + a, rest);
    }
    assert LeftmostSplit(tag, a + tag + rest) == [a] + tail by {
      SplitAt(tag, a, rest);
    }
    ConsParts(a, tail);
  }

  lemma FindShift(tag: seq<byte>, d: seq<byte>, s: seq<byte>)
    requires forall i :: 0 <= i < |d| ==> !TagAt(tag, d + s, i)
    ensures Find(tag, d + s) == if Find(tag, s) == -1 then -1 else |d| + Find(tag, s)
  {
    var i := Find(tag, s);
    var j := Find(tag, d + s);
    if j != -1 {
      TagAtSuffix(tag, d, s, j);
    }
    if i != -1 {
      TagAtSuffix(tag, d, s, i + |d|);
    }
  }

  lemma {:induction false} ConcatAppend(a: seq<seq<byte>>, b: seq<seq<byte>>)
    ensures Concat(a + b) == Concat(a) + Concat(b)
    decreases |a|
  {
    if a == [] {
      assert a + b == b;
    } else {
      assert (a + b)[1..] == a[1..] + b;
      ConcatAppend(a[1..], b);
    }
  }

  lemma ConcatTwo(a: seq<byte>, b: seq<byte>)
    ensures Concat([a, b]) == a + b
  {
    assert [a, b][1..] == [b];
    assert Concat([b]) == b + Concat([]);
    assert b + [] == b;
  }
}
