/** The longest common prefix of function names, found by bisection. */
module CommonPrefix {
  import opened Sequences
  import opened Options

  /** `p` is a prefix of every name. */
  ghost predicate Common(p: string, names: seq<string>) {
    forall n :: n in names ==> p <= n
  }

  /** `p` is a common prefix, and every common prefix is a prefix of it. */
  ghost predicate Longest(p: string, names: seq<string>) {
    Common(p, names) && forall q :: Common(q, names) ==> q <= p
  }

  function Lcp(a: string, b: string): (p: string)
    ensures p <= a && p <= b
  {
    if a == [] || b == [] || a[0] != b[0] then [] else [a[0]] + Lcp(a[1..], b[1..])
  }

  lemma {:induction false} LcpIsLongest(a: string, b: string, q: string)
    requires q <= a && q <= b
    ensures q <= Lcp(a, b)
    decreases |a|
  {
    if q != [] {
      assert a[0] == q[0] == b[0];
      assert q[1..] <= a[1..] && q[1..] <= b[1..];
      LcpIsLongest(a[1..], b[1..], q[1..]);
    }
  }

  function LcpAll(names: seq<string>): string
    requires names != []
  {
    if |names| == 1 then names[0] else Lcp(LcpAll(Init(names)), Last(names))
  }

  lemma {:induction false} LcpAllLongest(names: seq<string>)
    requires names != []
    ensures Longest(LcpAll(names), names)
    decreases |names|
  {
    if |names| > 1 {
      var init, last := Init(names), Last(names);
      assert names == init + [last];
      LcpAllLongest(init);
      assert Common(LcpAll(names), names);
      forall q | Common(q, names)
        ensures q <= LcpAll(names)
      {
        assert last in names && forall n :: n in init ==> n in names;
        assert Common(q, init);
        LcpIsLongest(LcpAll(init), last, q);
      }
    } else {
      assert names[0] in names;
    }
  }

  /** The longest common prefix depends only on which names there are, not on their order or
      on repetitions; fewer names have a longer one. */
  lemma FewerNames(some: seq<string>, all: seq<string>)
    requires some != [] && all != [] && forall n :: n in some ==> n in all
    ensures LcpAll(all) <= LcpAll(some)
    ensures (forall n :: n in all ==> n in some) ==> LcpAll(all) == LcpAll(some)
  {
    LcpAllLongest(some);
    LcpAllLongest(all);
    assert Common(LcpAll(all), some);
    if forall n :: n in all ==> n in some {
      assert Common(LcpAll(some), all);
    }
  }

  /** Equality of prefixes of a given length, and the turning point that bisection finds. */
  lemma LcpTurn(a: string, b: string, n: nat)
    requires n <= |a| && n <= |b|
    ensures a[..n] == b[..n] <==> n <= |Lcp(a, b)|
    ensures a[..|Lcp(a, b)|] == Lcp(a, b)
  {
    if n <= |Lcp(a, b)| {
      assert a[..n] == Lcp(a, b)[..n] == b[..n];
    } else if a[..n] == b[..n] {
      LcpIsLongest(a, b, a[..n]);
    }
  }

  function Min(a: int, b: int): int {
    if a < b then a else b
  }

  method CommonPrefixBisect(a: string, b: string) returns (r: Option<string>)
    ensures r == Some(Lcp(a, b))
  {
    var lo, hi := 0, Min(|a|, |b|) + 1;
    while lo < hi
      invariant 0 <= lo <= hi <= Min(|a|, |b|) + 1
      invariant lo <= |Lcp(a, b)| + 1
      invariant |Lcp(a, b)| < hi
    {
      var mid := (lo + hi) / 2;
      LcpTurn(a, b, mid);
      if b[..mid] != a[..mid] {
        hi := mid;
      } else {
        lo := mid + 1;
      }
    }
    LcpTurn(a, b, 0);
    r := if lo >= 1 then Some(a[..lo - 1]) else None;
  }

  lemma {:induction false} LcpShortened(a: string, b: string)
    ensures Lcp(a[..Min(|a|, |b|)], b[..Min(|a|, |b|)]) == Lcp(a, b)
    ensures a <= b ==> Lcp(a, b) == a
    decreases |a|
  {
    if a != [] && b != [] && a[0] == b[0] {
      var n := Min(|a|, |b|);
      LcpShortened(a[1..], b[1..]);
      assert a[..n][1..] == a[1..][..n - 1] && b[..n][1..] == b[1..][..n - 1];
    }
  }

  method GetCommonPrefix(funcNames: seq<string>) returns (r: Option<string>)
    ensures r == if funcNames == [] then None else Some(LcpAll(funcNames))
  {
    r := None;
    if |funcNames| >= 2 {
      r := CommonPrefixBisect(funcNames[0], funcNames[1]);
      assert Init(funcNames[..2]) == [funcNames[0]] && Last(funcNames[..2]) == funcNames[1];
      for k := 2 to |funcNames|
        invariant r == Some(LcpAll(funcNames[..k]))
      {
        var funcName := funcNames[k];
        var commonPrefix := r.value;
        assert Init(funcNames[..k + 1]) == funcNames[..k] && Last(funcNames[..k + 1]) == funcName;
        LcpShortened(commonPrefix, funcName);
        if commonPrefix <= funcName {
          continue;
        }
        var ln := Min(|commonPrefix|, |funcName|);
        r := CommonPrefixBisect(commonPrefix[..ln], funcName[..ln]);
        if r == None {
          break;
        }
      }
      assert funcNames[..|funcNames|] == funcNames;
    } else if |funcNames| == 1 {
      r := Some(funcNames[0]);
    }
  }
}
