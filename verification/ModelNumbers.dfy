/** Numbering of models by the common prefix of the functions an inference ran. An interrupted
    inference shows fewer functions, hence a longer prefix, and must still get the number of
    its model. */
module ModelNumbers {
  import opened Sequences
  import opened Options
  import opened CommonPrefix

  // ---------------------------------------------------------- the prefix table

  /** The first entry of the table that is a prefix of `p`; `p` itself if there is none. */
  function FirstPrefix(table: seq<string>, p: string): string {
    if table == [] then p else if table[0] <= p then table[0] else FirstPrefix(table[1..], p)
  }

  function Resolve(table: seq<string>, p: string): string {
    if p in table then p else FirstPrefix(table, p)
  }

  function Register(table: seq<string>, p: string): seq<string> {
    if Resolve(table, p) in table then table else table + [Resolve(table, p)]
  }

  /** The table after the inferences with prefixes `ps`, in order of registration. */
  function Table(ps: seq<string>): seq<string> {
    if ps == [] then [] else Register(Table(Init(ps)), Last(ps))
  }

  function IndexOf<T(==)>(s: seq<T>, x: T): (r: nat)
    ensures r <= |s| && (x in s <==> r < |s|) && (x in s ==> s[r] == x)
    ensures forall j :: 0 <= j < r ==> s[j] != x
  {
    if s == [] || s[0] == x then 0 else 1 + IndexOf(s[1..], x)
  }

  /** The model number that the inference at position `k` gets. */
  function Number(ps: seq<string>, k: nat, first: int): int
    requires k < |ps|
  {
    first + IndexOf(Table(ps[..k + 1]), Resolve(Table(ps[..k]), ps[k]))
  }

  // -------------------------------------------- which model an inference ran

  /** `full` gives every model the prefix that a complete inference shows. */
  ghost predicate PrefixFree(full: map<int, string>) {
    forall m, n :: m in full && n in full && m != n ==> !(full[m] <= full[n])
  }

  /** The inferences ran `models`; an interrupted one shows a longer prefix, but the first of
      each model is complete. */
  ghost predicate Observed(ps: seq<string>, models: seq<int>, full: map<int, string>) {
    && |ps| == |models|
    && (forall k :: 0 <= k < |ps| ==> models[k] in full && full[models[k]] <= ps[k])
    && (forall k :: 0 <= k < |ps| && models[k] !in models[..k] ==> ps[k] == full[models[k]])
  }

  /** The models in the order in which they first appear. */
  function Seen(models: seq<int>): (r: seq<int>)
    ensures forall m :: m in r <==> m in models
  {
    if models == [] then []
    else
      assert models == Init(models) + [Last(models)];
      if Last(models) in Seen(Init(models)) then Seen(Init(models)) else Seen(Init(models)) + [Last(models)]
  }

  ghost predicate Known(models: seq<int>, full: map<int, string>) {
    forall k :: 0 <= k < |models| ==> models[k] in full
  }

  function Prefixes(models: seq<int>, full: map<int, string>): (r: seq<string>)
    requires Known(models, full)
    ensures |r| == |models| && forall k :: 0 <= k < |r| ==> models[k] in full && r[k] == full[models[k]]
  {
    seq(|models|, i requires 0 <= i < |models| && Known(models, full) => full[models[i]])
  }

  lemma {:induction false} FirstPrefixFound(table: seq<string>, p: string)
    ensures FirstPrefix(table, p) <= p
    ensures FirstPrefix(table, p) in table || (FirstPrefix(table, p) == p && forall q :: q in table ==> !(q <= p))
    decreases |table|
  {
    if table != [] {
      FirstPrefixFound(table[1..], p);
      assert table == [table[0]] + table[1..];
    }
  }

  /** What a prefix resolves to: itself if it is registered or no registered one is a prefix of it,
      otherwise the first registered one that is. */
  lemma {:induction false} ResolveIs(table: seq<string>, p: string)
    ensures Resolve(table, p) == p <==> p in table || forall q :: q in table ==> !(q <= p)
    ensures p !in table ==>
              forall k :: 0 <= k < |table| && table[k] <= p && (forall j :: 0 <= j < k ==> !(table[j] <= p)) ==>
                Resolve(table, p) == table[k]
  {
    FirstPrefixFound(table, p);
    forall k | 0 <= k < |table| && table[k] <= p && forall j :: 0 <= j < k ==> !(table[j] <= p)
      ensures FirstPrefix(table, p) == table[k]
    {
      FirstPrefixAt(table, p, k);
    }
  }

  lemma {:induction false} FirstPrefixAt(table: seq<string>, p: string, k: nat)
    requires k < |table| && table[k] <= p && forall j :: 0 <= j < k ==> !(table[j] <= p)
    ensures FirstPrefix(table, p) == table[k]
    decreases k
  {
    if k > 0 {
      assert !(table[0] <= p);
      FirstPrefixAt(table[1..], p, k - 1);
    }
  }

  /** A prefix is registered, behind all others, if and only if none of them is a prefix of it. */
  lemma RegisterIff(table: seq<string>, p: string)
    ensures Register(table, p) == if exists q :: q in table && q <= p then table else table + [p]
  {
    FirstPrefixFound(table, p);
    assert p <= p;
  }

  /** A prefix that is full or longer resolves to its model's. */
  lemma ResolveFull(seen: seq<int>, full: map<int, string>, m: int, p: string)
    requires PrefixFree(full) && m in full && full[m] <= p
    requires Known(seen, full)
    requires m in seen || p == full[m]
    ensures Resolve(Prefixes(seen, full), p) == full[m]
  {
    var table := Prefixes(seen, full);
    var q := Resolve(table, p);
    FirstPrefixFound(table, p);
    InPrefixes(seen, full, m);
    if q in table {
      var k :| 0 <= k < |table| && table[k] == q;
      assert q == p[..|q|] && full[m] == p[..|full[m]|];
      assert seen[k] == m;
    }
  }

  lemma ObservedInit(ps: seq<string>, models: seq<int>, full: map<int, string>)
    requires Observed(ps, models, full) && ps != []
    ensures Observed(Init(ps), Init(models), full)
  {
    forall k | 0 <= k < |ps| - 1 && Init(models)[k] !in Init(models)[..k]
      ensures Init(ps)[k] == full[Init(models)[k]]
    {
      assert Init(models)[..k] == models[..k];
    }
  }

  lemma RegisterFull(seen: seq<int>, full: map<int, string>, m: int, p: string)
    requires PrefixFree(full) && m in full && full[m] <= p && Known(seen, full)
    requires m in seen || p == full[m]
    ensures Known(seen + [m], full)
    ensures Register(Prefixes(seen, full), p) == Prefixes(if m in seen then seen else seen + [m], full)
  {
    ResolveFull(seen, full, m, p);
    InPrefixes(seen, full, m);
    PrefixesSnoc(seen, full, m);
  }

  lemma ObservedLast(ps: seq<string>, models: seq<int>, full: map<int, string>)
    requires Observed(ps, models, full) && ps != []
    ensures models != [] && Last(models) in full && full[Last(models)] <= Last(ps)
    ensures Last(models) !in Seen(Init(models)) ==> Last(ps) == full[Last(models)]
  {
    assert Init(models) == models[..|ps| - 1];
  }

  /** The table holds the full prefixes of the models seen, in order. */
  lemma {:induction false} TableIsSeen(ps: seq<string>, models: seq<int>, full: map<int, string>)
    requires PrefixFree(full) && Observed(ps, models, full)
    ensures Known(Seen(models), full)
    ensures Table(ps) == Prefixes(Seen(models), full)
    decreases |ps|
  {
    SameLength(ps, models, full);
    hide Observed, PrefixFree, Register, Resolve;
    if ps != [] {
      ObservedInit(ps, models, full);
      ObservedLast(ps, models, full);
      TableIsSeen(Init(ps), Init(models), full);
      RegisterFull(Seen(Init(models)), full, Last(models), Last(ps));
    }
  }

  lemma InPrefixes(seen: seq<int>, full: map<int, string>, m: int)
    requires PrefixFree(full) && m in full && Known(seen, full)
    ensures full[m] in Prefixes(seen, full) <==> m in seen
    ensures IndexOf(Prefixes(seen, full), full[m]) == IndexOf(seen, m)
  {
    var table := Prefixes(seen, full);
    var i, j := IndexOf(table, full[m]), IndexOf(seen, m);
    if m in seen {
      assert table[j] == full[m];
    }
    if full[m] in table {
      assert table[i] == full[seen[i]] && full[m] <= full[seen[i]];
      assert seen[i] == m;
    }
  }

  lemma PrefixesSnoc(seen: seq<int>, full: map<int, string>, m: int)
    requires m in full && Known(seen, full)
    ensures Prefixes(seen + [m], full) == Prefixes(seen, full) + [full[m]]
  {
  }

  lemma {:induction false} IndexOfPrefix<T>(s: seq<T>, t: seq<T>, x: T)
    requires s <= t && x in s
    ensures IndexOf(t, x) == IndexOf(s, x)
    decreases |s|
  {
    if s[0] != x {
      assert s == [s[0]] + s[1..];
      IndexOfPrefix(s[1..], t[1..], x);
    }
  }

  lemma {:induction false} SeenPrefix(models: seq<int>, k: nat)
    requires k <= |models|
    ensures Seen(models[..k]) <= Seen(models)
    decreases |models|
  {
    if k < |models| {
      SeenPrefix(Init(models), k);
      assert Init(models)[..k] == models[..k];
    } else {
      assert models[..k] == models;
    }
  }

  lemma ObservedPrefix(ps: seq<string>, models: seq<int>, full: map<int, string>, k: nat)
    requires Observed(ps, models, full) && k <= |ps|
    ensures Observed(ps[..k], models[..k], full)
  {
    forall j | 0 <= j < k && models[..k][j] !in models[..k][..j]
      ensures ps[..k][j] == full[models[..k][j]]
    {
      assert models[..k][..j] == models[..j];
    }
  }

  lemma ObservedAt(ps: seq<string>, models: seq<int>, full: map<int, string>, k: nat)
    requires Observed(ps, models, full) && k < |ps|
    ensures k < |models| && models[k] in full && full[models[k]] <= ps[k]
    ensures models[k] !in Seen(models[..k]) ==> ps[k] == full[models[k]]
  {
  }

  /** The number is the position of the model among those seen. */
  lemma NumberIsPosition(ps: seq<string>, models: seq<int>, full: map<int, string>, k: nat, first: int)
    requires PrefixFree(full) && Observed(ps, models, full) && k < |ps|
    ensures Number(ps, k, first) == first + IndexOf(Seen(models), models[k])
    ensures models[k] in Seen(models)
  {
    ObservedAt(ps, models, full, k);
    hide Observed, PrefixFree, Table, Resolve, Register, Prefixes;
    var m := models[k];
    ObservedPrefix(ps, models, full, k);
    ObservedPrefix(ps, models, full, k + 1);
    TableIsSeen(ps[..k], models[..k], full);
    TableIsSeen(ps[..k + 1], models[..k + 1], full);
    ResolveFull(Seen(models[..k]), full, m, ps[k]);
    assert m in models[..k + 1] by {
      assert models[..k + 1][k] == m;
    }
    hide Seen, IndexOf;
    InPrefixes(Seen(models[..k + 1]), full, m);
    SeenPrefix(models, k + 1);
    IndexOfPrefix(Seen(models[..k + 1]), Seen(models), m);
  }

  /** Main result. Two finished inferences get the same number exactly when they ran the same
      model, and the numbers used are those from `first` on, without a gap. */
  lemma SameNumberIff(ps: seq<string>, models: seq<int>, full: map<int, string>, first: int)
    requires PrefixFree(full) && Observed(ps, models, full)
    ensures forall j, k :: 0 <= j < |ps| && 0 <= k < |ps| ==>
              (Number(ps, j, first) == Number(ps, k, first) <==> models[j] == models[k])
    ensures var used := set k | 0 <= k < |ps| :: Number(ps, k, first);
            forall x :: x in used <==> first <= x < first + |Table(ps)|
  {
    hide Table, Number, Observed, PrefixFree;
    SameLength(ps, models, full);
    var used := set k | 0 <= k < |ps| :: Number(ps, k, first);
    TableIsSeen(ps, models, full);
    var seen := Seen(models);
    SeenDistinct(models);
    forall k | 0 <= k < |ps|
      ensures Number(ps, k, first) == first + IndexOf(seen, models[k])
      ensures models[k] in seen
    {
      NumberIsPosition(ps, models, full, k, first);
    }
    forall x | first <= x < first + |seen|
      ensures x in used
    {
      assert seen[x - first] in seen;
      var k :| 0 <= k < |models| && models[k] == seen[x - first];
      IndexOfDistinct(seen, x - first);
      assert Number(ps, k, first) == x;
    }
  }

  lemma SameLength(ps: seq<string>, models: seq<int>, full: map<int, string>)
    requires Observed(ps, models, full)
    ensures |ps| == |models|
  {
  }

  ghost predicate Distinct<T>(s: seq<T>) {
    forall i, j :: 0 <= i < j < |s| ==> s[i] != s[j]
  }

  lemma {:induction false} SeenDistinct(models: seq<int>)
    ensures Distinct(Seen(models))
    decreases |models|
  {
    if models != [] {
      SeenDistinct(Init(models));
    }
  }

  lemma IndexOfDistinct<T>(s: seq<T>, k: nat)
    requires Distinct(s) && k < |s|
    ensures IndexOf(s, s[k]) == k
  {
    assert s[k] in s;
  }

  /** Where the hypotheses come from: the prefix of an inference is the longest common prefix
      of the functions it ran, so running only some of them can only lengthen it, and running
      all of them, in any order and any number of times, gives the model's. */
  lemma InterruptedIsLonger(ran: seq<string>, functions: seq<string>)
    requires ran != [] && functions != [] && forall f :: f in ran ==> f in functions
    ensures LcpAll(functions) <= LcpAll(ran)
    ensures (forall f :: f in functions ==> f in ran) ==> LcpAll(ran) == LcpAll(functions)
    ensures LcpAll(functions) != [] ==> LcpAll(ran) != []
  {
    FewerNames(ran, functions);
  }

  // ------------------------------------------------------------ the dictionary

  /** `prefix_to_model_number`: its keys in order of insertion, and the numbers. */
  ghost predicate Dictionary(keys: seq<string>, numbers: map<string, int>, first: int) {
    && (forall p :: p in numbers <==> p in keys)
    && (forall p :: p in numbers ==> numbers[p] == first + IndexOf(keys, p))
  }

  lemma {:induction false} IndexOfNew<T>(s: seq<T>, x: T)
    requires x !in s
    ensures IndexOf(s + [x], x) == |s|
  {
    assert (s + [x])[|s|] == x;
    assert x in s + [x];
  }

  lemma DictionaryGrows(keys: seq<string>, numbers: map<string, int>, first: int, p: string)
    requires Dictionary(keys, numbers, first) && |keys| == |numbers| && p !in keys
    ensures Dictionary(keys + [p], numbers[p := |numbers| + first], first)
    ensures |keys + [p]| == |numbers[p := |numbers| + first]|
  {
    IndexOfNew(keys, p);
    forall q | q in keys
      ensures IndexOf(keys + [p], q) == IndexOf(keys, q)
    {
      IndexOfPrefix(keys, keys + [p], q);
    }
  }

  /** Looks a prefix up, and registers it if neither it nor a prefix of it is known. */
  method LookUp(keys: seq<string>, numbers: map<string, int>, prefix: string, first: int)
      returns (keys': seq<string>, numbers': map<string, int>, num: int)
    requires Dictionary(keys, numbers, first) && |keys| == |numbers|
    ensures keys' == Register(keys, prefix)
    ensures Dictionary(keys', numbers', first) && |keys'| == |numbers'|
    ensures num == first + IndexOf(keys', Resolve(keys, prefix))
  {
    keys', numbers' := keys, numbers;
    var commonPrefix := prefix;
    FirstPrefixFound(keys, prefix);
    if commonPrefix !in numbers {
      var k := 0;
      assert keys[0..] == keys;
      while k < |keys|
        invariant 0 <= k <= |keys| && commonPrefix == prefix
        invariant FirstPrefix(keys[k..], prefix) == FirstPrefix(keys, prefix)
      {
        assert keys[k..][1..] == keys[k + 1..];
        if keys[k] <= commonPrefix {
          commonPrefix := keys[k];
          break;
        }
        k := k + 1;
      }
    }
    assert commonPrefix == Resolve(keys, prefix);
    if commonPrefix !in numbers {
      DictionaryGrows(keys, numbers, first, commonPrefix);
      numbers' := numbers[commonPrefix := |numbers| + first];
      keys' := keys + [commonPrefix];
    }
    num := numbers'[commonPrefix];
  }
}
