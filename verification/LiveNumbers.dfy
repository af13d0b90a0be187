/** Model numbers of a live trace: every increment of events is renumbered on its own, and the
    dictionary of all models only says which number is the next. A reset leaves it alone. */
module LiveNumbers {
  import opened Sequences
  import opened Options
  import opened ModelNumbers
  import opened InferenceNumbers

  /** Models are known by the number they report, or by the prefix of their functions; TVM
      reports 0 for all of them. */
  datatype ModelKey = Id(id: int) | Prefix(name: string)

  type Mapping = map<ModelKey, int>

  /** Events of a model report its id, or an increment of events, whose finished inferences show
      some prefixes, is renumbered. */
  datatype Step = Reported(id: int) | Parsed(ps: seq<string>)

  function WithoutZero(m: Mapping): Mapping {
    m - {Id(0)}
  }

  /** The number that counts as the first one that is free. */
  function First(m: Mapping): nat {
    |WithoutZero(m)|
  }

  function Registered(ps: seq<string>, first: int): Mapping {
    map k: ModelKey | k in (set p | p in Table(ps) :: Prefix(p)) :: first + IndexOf(Table(ps), k.name)
  }

  function Next(m: Mapping, s: Step): Mapping {
    match s
    case Reported(id) => if Id(id) in m then m else m[Id(id) := |m|]
    case Parsed(ps) => WithoutZero(m) + Registered(ps, First(m))
  }

  function After(steps: seq<Step>): Mapping {
    if steps == [] then map[] else Next(After(Init(steps)), Last(steps))
  }

  /** The number of the `k`-th finished inference of increment `n`. */
  function LiveNumber(steps: seq<Step>, n: nat, k: nat): int
    requires n < |steps| && steps[n].Parsed? && k < |steps[n].ps|
  {
    Number(steps[n].ps, k, First(After(steps[..n])))
  }

  // -------------------------------------------------------------- the table grows

  lemma AfterNext(steps: seq<Step>, n: nat)
    requires n < |steps|
    ensures After(steps[..n + 1]) == Next(After(steps[..n]), steps[n])
  {
    assert Init(steps[..n + 1]) == steps[..n];
  }

  lemma SubsetSize<T>(a: set<T>, b: set<T>)
    requires a <= b
    ensures |a| <= |b|
  {
    assert b == a + (b - a);
  }

  /** What is registered for an increment, as keys. */
  lemma RegisteredKeys(ps: seq<string>, first: int)
    ensures forall p :: Prefix(p) in Registered(ps, first) <==> p in Table(ps)
    ensures forall id :: Id(id) !in Registered(ps, first)
    ensures forall p :: p in Table(ps) ==> Registered(ps, first)[Prefix(p)] == first + IndexOf(Table(ps), p)
  {
  }

  lemma {:induction false} PrefixSetSize(table: seq<string>)
    requires Distinct(table)
    ensures |set p | p in table :: Prefix(p)| == |table|
    decreases |table|
  {
    if table != [] {
      var before, p := Init(table), Last(table);
      assert table == before + [p];
      PrefixSetSize(before);
      assert (set q | q in table :: Prefix(q)) == (set q | q in before :: Prefix(q)) + {Prefix(p)};
    }
  }

  lemma {:induction false} TableDistinct(ps: seq<string>)
    ensures Distinct(Table(ps))
    decreases |ps|
  {
    if ps != [] {
      TableDistinct(Init(ps));
    }
  }

  lemma RegisteredSize(ps: seq<string>, first: int)
    ensures |Registered(ps, first)| == |Table(ps)|
  {
    TableDistinct(ps);
    PrefixSetSize(Table(ps));
    assert Registered(ps, first).Keys == (set p | p in Table(ps) :: Prefix(p));
  }

  /** No prefix of the increment has been registered before. */
  predicate AllNew(m: Mapping, ps: seq<string>) {
    forall p :: p in Table(ps) ==> Prefix(p) !in m
  }

  lemma UnionSize<T>(a: set<T>, b: set<T>)
    ensures |a| <= |a + b| <= |a| + |b|
    ensures a !! b <==> |a + b| == |a| + |b|
  {
    assert |a + b| == |a| + |b| - |a * b|;
    SubsetSize(a, a + b);
    if a !! b {
      assert a * b == {};
    } else {
      var x :| x in a && x in b;
      assert x in a * b;
    }
  }

  lemma AllNewIff(m: Mapping, ps: seq<string>)
    ensures AllNew(m, ps) <==> WithoutZero(m).Keys !! Registered(ps, First(m)).Keys
  {
    var a, b := WithoutZero(m).Keys, Registered(ps, First(m)).Keys;
    RegisteredKeys(ps, First(m));
    forall p | p in Table(ps)
      ensures Prefix(p) in a * b <==> Prefix(p) in m
    {
    }
    forall k | k in a && k in b
      ensures !AllNew(m, ps)
    {
      assert k.Prefix? && k.name in Table(ps) && Prefix(k.name) in m;
    }
  }

  lemma {:induction false} ParsedFirst(m: Mapping, ps: seq<string>)
    ensures var r := Next(m, Parsed(ps));
            && Id(0) !in r && First(r) == |r|
            && First(m) <= |r| <= First(m) + |Table(ps)|
            && (AllNew(m, ps) <==> |r| == First(m) + |Table(ps)|)
  {
    var a, b := WithoutZero(m).Keys, Registered(ps, First(m)).Keys;
    RegisteredSize(ps, First(m));
    RegisteredKeys(ps, First(m));
    AllNewIff(m, ps);
    UnionSize(a, b);
    hide Registered, AllNew, Table;
    var r := Next(m, Parsed(ps));
    assert WithoutZero(r) == r && r.Keys == a + b;
  }

  lemma NextFirst(m: Mapping, s: Step)
    ensures First(Next(m, s)) >= First(m)
  {
    match s
    case Reported(id) => SubsetSize(WithoutZero(m).Keys, WithoutZero(Next(m, s)).Keys);
    case Parsed(ps) => ParsedFirst(m, ps);
  }

  lemma {:induction false} FirstGrows(steps: seq<Step>, n: nat, n': nat)
    requires n <= n' <= |steps|
    ensures First(After(steps[..n])) <= First(After(steps[..n']))
    decreases n'
  {
    hide First, Next, After;
    if n < n' {
      FirstGrows(steps, n, n' - 1);
      AfterNext(steps, n' - 1);
      NextFirst(After(steps[..n' - 1]), steps[n' - 1]);
    }
  }

  /** Prefixes are registered by increments. */
  lemma {:induction false} KnownFrom(steps: seq<Step>, n: nat, p: string) returns (i: nat)
    requires n <= |steps| && Prefix(p) in After(steps[..n])
    ensures i < n && steps[i].Parsed? && p in Table(steps[i].ps)
    decreases n
  {
    AfterNext(steps, n - 1);
    var m := After(steps[..n - 1]);
    if Prefix(p) in m {
      i := KnownFrom(steps, n - 1, p);
    } else {
      i := n - 1;
      RegisteredKeys(steps[i].ps, First(m));
    }
  }

  // --------------------------------------------------------- numbers and models

  /** The finished inferences of every increment ran `models`, and in every increment the first
      one of a model is complete. */
  ghost predicate AllObserved(steps: seq<Step>, models: seq<seq<int>>, full: map<int, string>) {
    && |models| == |steps|
    && forall n :: 0 <= n < |steps| ==>
         if steps[n].Parsed? then Observed(steps[n].ps, models[n], full) else models[n] == []
  }

  /** A model has finished inferences in two increments. */
  ghost predicate InBoth(models: seq<seq<int>>, n: nat, n': nat) {
    n < n' < |models| && exists m :: m in models[n] && m in models[n']
  }

  ghost predicate Recurs(models: seq<seq<int>>) {
    exists n: nat, n': nat :: InBoth(models, n, n')
  }

  /** The increment in which a model recurs for the first time. */
  lemma {:induction false} FirstRecurring(models: seq<seq<int>>, n: nat, n': nat) returns (i: nat, i': nat)
    requires InBoth(models, n, n')
    ensures InBoth(models, i, i') && forall j: nat, j': nat :: j' < i' ==> !InBoth(models, j, j')
    decreases n'
  {
    if j: nat, j': nat :| j' < n' && InBoth(models, j, j') {
      i, i' := FirstRecurring(models, j, j');
    } else {
      i, i' := n, n';
    }
  }

  lemma InTable(ps: seq<string>, models: seq<int>, full: map<int, string>, p: string) returns (m: int)
    requires PrefixFree(full) && Observed(ps, models, full) && p in Table(ps)
    ensures m in models && m in full && full[m] == p
  {
    TableIsSeen(ps, models, full);
    var k :| 0 <= k < |Table(ps)| && Table(ps)[k] == p;
    m := Seen(models)[k];
    assert m in Seen(models);
  }

  /** A prefix of an increment that is known already belongs to a model that has come before. */
  lemma {:induction false} KnownModel(steps: seq<Step>, models: seq<seq<int>>, full: map<int, string>, n: nat,
                                      p: string) returns (i: nat)
    requires PrefixFree(full) && AllObserved(steps, models, full) && n < |steps| && steps[n].Parsed?
    requires p in Table(steps[n].ps) && Prefix(p) in After(steps[..n])
    ensures InBoth(models, i, n)
  {
    hide After, Table, Observed;
    var m := InTable(steps[n].ps, models[n], full, p);
    i := KnownFrom(steps, n, p);
    var m' := InTable(steps[i].ps, models[i], full, p);
    assert full[m] <= full[m'];
  }

  /** If no model of an increment has come before, nor has its prefix. */
  lemma {:induction false} NewModelsNewPrefixes(steps: seq<Step>, models: seq<seq<int>>, full: map<int, string>,
                                                n: nat)
    requires PrefixFree(full) && AllObserved(steps, models, full) && n < |steps| && steps[n].Parsed?
    requires forall i: nat :: !InBoth(models, i, n)
    ensures AllNew(After(steps[..n]), steps[n].ps)
  {
    hide After, Table, AllObserved, PrefixFree, InBoth;
    forall p | p in Table(steps[n].ps)
      ensures Prefix(p) !in After(steps[..n])
    {
      if Prefix(p) in After(steps[..n]) {
        var i := KnownModel(steps, models, full, n, p);
      }
    }
  }

  lemma NumberInRange(ps: seq<string>, models: seq<int>, full: map<int, string>, k: nat, first: int)
    requires PrefixFree(full) && Observed(ps, models, full) && k < |ps|
    ensures first <= Number(ps, k, first) < first + |Table(ps)|
  {
    NumberIsPosition(ps, models, full, k, first);
    TableIsSeen(ps, models, full);
  }

  /** Later increments get higher numbers than one whose models are new. */
  lemma {:induction false} LaterIsHigher(steps: seq<Step>, models: seq<seq<int>>, full: map<int, string>,
                                         n: nat, k: nat, n': nat, k': nat)
    requires PrefixFree(full) && AllObserved(steps, models, full) && n < n' < |steps|
    requires steps[n].Parsed? && k < |steps[n].ps| && steps[n'].Parsed? && k' < |steps[n'].ps|
    requires forall i: nat :: !InBoth(models, i, n)
    ensures LiveNumber(steps, n, k) < LiveNumber(steps, n', k')
  {
    NewModelsNewPrefixes(steps, models, full, n);
    AfterNext(steps, n);
    ParsedFirst(After(steps[..n]), steps[n].ps);
    FirstGrows(steps, n + 1, n');
    NumberInRange(steps[n].ps, models[n], full, k, First(After(steps[..n])));
    NumberInRange(steps[n'].ps, models[n'], full, k', First(After(steps[..n'])));
  }

  ghost predicate Finished(steps: seq<Step>, n: nat, k: nat) {
    n < |steps| && steps[n].Parsed? && k < |steps[n].ps|
  }

  /** The same number for exactly the inferences of the same model. */
  ghost predicate Tells(steps: seq<Step>, models: seq<seq<int>>, n: nat, k: nat, n': nat, k': nat)
    requires Finished(steps, n, k) && Finished(steps, n', k')
  {
    && n < |models| && k < |models[n]| && n' < |models| && k' < |models[n']|
    && (LiveNumber(steps, n, k) == LiveNumber(steps, n', k') <==> models[n][k] == models[n'][k'])
  }

  lemma {:induction false} TellsUnlessRecurring(steps: seq<Step>, models: seq<seq<int>>, full: map<int, string>,
                                                n: nat, k: nat, n': nat, k': nat)
    requires PrefixFree(full) && AllObserved(steps, models, full) && !Recurs(models)
    requires Finished(steps, n, k) && Finished(steps, n', k')
    ensures Tells(steps, models, n, k, n', k')
  {
    SameLength(steps[n].ps, models[n], full);
    SameLength(steps[n'].ps, models[n'], full);
    if n == n' {
      SameNumberIff(steps[n].ps, models[n], full, First(After(steps[..n])));
    } else {
      var a, ka, b, kb := if n < n' then n else n', if n < n' then k else k', if n < n' then n' else n,
                          if n < n' then k' else k;
      LaterIsHigher(steps, models, full, a, ka, b, kb);
      assert !InBoth(models, a, b);
      assert models[a][ka] in models[a] && models[b][kb] in models[b];
    }
  }

  /** Main result. Over all increments of a live trace two finished inferences carry the same
      number exactly when they ran the same model if and only if no model finishes inferences
      in two increments. */
  lemma {:induction false} LiveNumbersTellModelsIff(steps: seq<Step>, models: seq<seq<int>>, full: map<int, string>)
    requires PrefixFree(full) && AllObserved(steps, models, full)
    ensures (forall n: nat, k: nat, n': nat, k': nat :: Finished(steps, n, k) && Finished(steps, n', k') ==>
               Tells(steps, models, n, k, n', k')) <==>
            !Recurs(models)
  {
    hide LiveNumber, PrefixFree;
    if Recurs(models) {
      var n: nat, n': nat :| InBoth(models, n, n');
      n, n' := FirstRecurring(models, n, n');
      var m :| m in models[n] && m in models[n'];
      var k: nat, k': nat :| k < |models[n]| && models[n][k] == m && k' < |models[n']| && models[n'][k'] == m;
      SameLength(steps[n].ps, models[n], full);
      SameLength(steps[n'].ps, models[n'], full);
      LaterIsHigher(steps, models, full, n, k, n', k');
      assert Finished(steps, n, k) && Finished(steps, n', k') && !Tells(steps, models, n, k, n', k');
    } else {
      forall n: nat, k: nat, n': nat, k': nat | Finished(steps, n, k) && Finished(steps, n', k')
        ensures Tells(steps, models, n, k, n', k')
      {
        TellsUnlessRecurring(steps, models, full, n, k, n', k');
      }
    }
  }

  // ---------------------------------------------------------- consecutive numbers

  /** Every model has a number of its own, and these are the numbers up to the count of models. */
  ghost predicate Consecutive(m: Mapping) {
    && (forall k :: k in m ==> 0 <= m[k] < |m|)
    && (forall j, k :: j in m && k in m && j != k ==> m[j] != m[k])
    && (forall i :: 0 <= i < |m| ==> i in m.Values)
  }

  /** The id 0, which is taken out before an increment, is not there or was registered last, and
      the prefixes of the increment are new. */
  predicate LeavesNoGap(m: Mapping, s: Step) {
    s.Parsed? ==> (Id(0) in m ==> m[Id(0)] == |m| - 1) && AllNew(m, s.ps)
  }

  lemma {:induction false} ReportConsecutive(m: Mapping, id: int)
    requires Consecutive(m)
    ensures Consecutive(Next(m, Reported(id)))
  {
    var k, r := Id(id), Next(m, Reported(id));
    if k !in m {
      assert |r| == |m| + 1;
      forall i | 0 <= i < |r|
        ensures i in r.Values
      {
        if i == |m| {
          assert r[k] == i;
        } else {
          assert i in m.Values;
          var j :| j in m && m[j] == i;
          assert r[j] == i;
        }
      }
    }
  }

  /** A new prefix gets the number of its position. */
  lemma RegisteredAt(m: Mapping, ps: seq<string>, i: nat)
    requires i < |Table(ps)|
    ensures Prefix(Table(ps)[i]) in Next(m, Parsed(ps)) && Next(m, Parsed(ps))[Prefix(Table(ps)[i])] == First(m) + i
  {
    var p := Table(ps)[i];
    TableDistinct(ps);
    IndexOfDistinct(Table(ps), i);
    RegisteredKeys(ps, First(m));
    assert p in Table(ps);
  }

  /** What the dictionary holds after an increment: what is new, and what was there before. */
  lemma KeyAfter(m: Mapping, ps: seq<string>, k: ModelKey)
    requires AllNew(m, ps)
    ensures var r := Next(m, Parsed(ps));
            && (k in r <==> (k in m && k != Id(0)) || (k.Prefix? && k.name in Table(ps)))
            && (k in m && k != Id(0) ==> r[k] == m[k] && !(k.Prefix? && k.name in Table(ps)))
            && (k.Prefix? && k.name in Table(ps) ==> r[k] == First(m) + IndexOf(Table(ps), k.name))
  {
    RegisteredKeys(ps, First(m));
  }

  lemma {:induction false} NoGapDistinct(m: Mapping, ps: seq<string>)
    requires Consecutive(m) && LeavesNoGap(m, Parsed(ps))
    ensures var r := Next(m, Parsed(ps));
            && (forall k :: k in r ==> 0 <= r[k] < |r|)
            && (forall j, k :: j in r && k in r && j != k ==> r[j] != r[k])
  {
    var r, n := Next(m, Parsed(ps)), First(m);
    ParsedFirst(m, ps);
    WithoutSize(m);
    hide Next, First, Table, WithoutZero;
    forall k | k in r
      ensures 0 <= r[k] < |r|
    {
      KeyAfter(m, ps, k);
    }
    forall j, k | j in r && k in r && j != k
      ensures r[j] != r[k]
    {
      KeyAfter(m, ps, j);
      KeyAfter(m, ps, k);
    }
  }

  lemma {:induction false} NoGapFull(m: Mapping, ps: seq<string>)
    requires Consecutive(m) && LeavesNoGap(m, Parsed(ps))
    ensures var r := Next(m, Parsed(ps)); forall i :: 0 <= i < |r| ==> i in r.Values
  {
    var r, n := Next(m, Parsed(ps)), First(m);
    ParsedFirst(m, ps);
    WithoutSize(m);
    hide Next, First, Table, WithoutZero;
    forall i | 0 <= i < |r|
      ensures i in r.Values
    {
      if i < n {
        assert i in m.Values;
        var j :| j in m && m[j] == i;
        KeyAfter(m, ps, j);
        assert j in r && r[j] == i;
      } else {
        RegisteredAt(m, ps, i - n);
      }
    }
  }

  lemma WithoutSize(m: Mapping)
    ensures |m| == if Id(0) in m then First(m) + 1 else First(m)
  {
    if Id(0) in m {
      assert m.Keys == WithoutZero(m).Keys + {Id(0)};
    } else {
      assert WithoutZero(m) == m;
    }
  }

  /** A prefix that is known already takes no new place. */
  lemma {:induction false} KnownNotConsecutive(m: Mapping, ps: seq<string>)
    requires !AllNew(m, ps)
    ensures !Consecutive(Next(m, Parsed(ps)))
  {
    ParsedFirst(m, ps);
    assert |Table(ps)| > 0;
    RegisteredAt(m, ps, |Table(ps)| - 1);
    hide Next, First, Table;
  }

  /** When 0 is taken out, the model registered last keeps a number that is then given again. */
  lemma {:induction false} ZeroNotConsecutive(m: Mapping, ps: seq<string>)
    requires Consecutive(m) && AllNew(m, ps) && Id(0) in m && m[Id(0)] != |m| - 1
    ensures !Consecutive(Next(m, Parsed(ps)))
  {
    hide Next, First, Table, WithoutZero, AllNew;
    var r, n := Next(m, Parsed(ps)), First(m);
    WithoutSize(m);
    ParsedFirst(m, ps);
    assert n in m.Values;
    var j :| j in m && m[j] == n;
    KeyAfter(m, ps, j);
    if |Table(ps)| > 0 {
      RegisteredAt(m, ps, 0);
      assert Table(ps)[0] in Table(ps);
    }
    assert j in r && r[j] == n;
  }

  lemma {:induction false} StepConsecutiveIff(m: Mapping, s: Step)
    requires Consecutive(m)
    ensures Consecutive(Next(m, s)) <==> LeavesNoGap(m, s)
  {
    hide Next, Table, AllNew, WithoutZero, First;
    if s.Reported? {
      ReportConsecutive(m, s.id);
      assert s == Reported(s.id);
    } else {
      assert s == Parsed(s.ps);
      if !AllNew(m, s.ps) {
        KnownNotConsecutive(m, s.ps);
      } else if Id(0) in m && m[Id(0)] != |m| - 1 {
        ZeroNotConsecutive(m, s.ps);
      } else {
        NoGapDistinct(m, s.ps);
        NoGapFull(m, s.ps);
      }
    }
  }

  ghost predicate AlwaysConsecutive(steps: seq<Step>, n: nat)
    requires n <= |steps|
  {
    forall i :: 0 <= i <= n ==> Consecutive(After(steps[..i]))
  }

  ghost predicate NeverGap(steps: seq<Step>, n: nat)
    requires n <= |steps|
  {
    forall i :: 0 <= i < n ==> LeavesNoGap(After(steps[..i]), steps[i])
  }

  lemma {:induction false} AlwaysNext(steps: seq<Step>, n: nat)
    requires n < |steps|
    ensures AlwaysConsecutive(steps, n + 1) <==>
            AlwaysConsecutive(steps, n) && Consecutive(Next(After(steps[..n]), steps[n]))
    ensures AlwaysConsecutive(steps, n) ==> Consecutive(After(steps[..n]))
    ensures NeverGap(steps, n + 1) <==> NeverGap(steps, n) && LeavesNoGap(After(steps[..n]), steps[n])
  {
    AfterNext(steps, n);
    hide After, LeavesNoGap, Consecutive, Next;
  }

  /** Main result. The numbers of all models stay consecutive, and different ones for different
      models, over a whole run if and only if no increment shows a prefix that an earlier one
      registered, or takes out the id 0 when another was registered after it. */
  lemma {:induction false} ConsecutiveIff(steps: seq<Step>, n: nat)
    requires n <= |steps|
    ensures AlwaysConsecutive(steps, n) <==> NeverGap(steps, n)
    decreases n
  {
    if n == 0 {
      assert steps[..0] == [];
    } else {
      ConsecutiveIff(steps, n - 1);
      AlwaysNext(steps, n - 1);
      hide After, LeavesNoGap, Consecutive, Next, AlwaysConsecutive, NeverGap;
      if Consecutive(After(steps[..n - 1])) {
        StepConsecutiveIff(After(steps[..n - 1]), steps[n - 1]);
      }
    }
  }

  // ---------------------------------------------------------------- three runs

  lemma OneInference(p: string, first: int)
    ensures Table([p]) == [p] && Number([p], 0, first) == first
    ensures Registered([p], first) == map[Prefix(p) := first]
  {
    assert Init([p]) == [] && [p][..0] == [] && [p][..1] == [p] && [] + [p] == [p];
    assert Table([]) == [] && FirstPrefix([], p) == p;
  }

  /** A model that finishes an inference in two increments gets two numbers, and the next model
      gets the second one as well. */
  lemma {:induction false} RecurringModel(a: string, b: string)
    requires a != b
    ensures var steps := [Parsed([a]), Parsed([a]), Parsed([b])];
            LiveNumber(steps, 0, 0) == 0 && LiveNumber(steps, 1, 0) == 1 && LiveNumber(steps, 2, 0) == 1
  {
    var steps := [Parsed([a]), Parsed([a]), Parsed([b])];
    hide Registered, Number, Table;
    OneInference(a, 0);
    OneInference(a, 1);
    OneInference(b, 1);
    assert steps[..0] == [];
    AfterNext(steps, 0);
    assert After(steps[..1]) == map[Prefix(a) := 0];
    AfterNext(steps, 1);
    assert WithoutZero(map[Prefix(a) := 0]) == map[Prefix(a) := 0];
    assert After(steps[..2]) == map[Prefix(a) := 1];
    assert WithoutZero(map[Prefix(a) := 1]) == map[Prefix(a) := 1];
  }

  /** The id 0 comes before another id: the first TVM model gets the number of that model. */
  lemma {:induction false} ZeroReportedFirst(id: int, a: string)
    requires id != 0
    ensures After([Reported(0), Reported(id), Parsed([a])]) == map[Id(id) := 1, Prefix(a) := 1]
  {
    var steps := [Reported(0), Reported(id), Parsed([a])];
    hide Registered;
    OneInference(a, 1);
    assert steps[..0] == [] && steps[..3] == steps;
    AfterNext(steps, 0);
    assert After(steps[..1]) == map[Id(0) := 0];
    AfterNext(steps, 1);
    assert After(steps[..2]) == map[Id(0) := 0, Id(id) := 1];
    AfterNext(steps, 2);
    assert WithoutZero(map[Id(0) := 0, Id(id) := 1]) == map[Id(id) := 1];
  }

  // ------------------------------------------------------------ the dictionaries

  lemma NothingRegistered(first: int)
    ensures Registered([], first) == map[]
  {
    RegisteredKeys([], first);
  }

  lemma NextParsed(m: Mapping, ps: seq<string>)
    ensures m - {Id(0)} == WithoutZero(m) && |m - {Id(0)}| == First(m)
    ensures Next(m, Parsed(ps)) == WithoutZero(m) + Registered(ps, First(m))
    ensures Next(m, Parsed([])) == WithoutZero(m)
  {
    hide Registered;
    NothingRegistered(First(m));
  }

  /** Keys of the renumbering as keys of all models. */
  function AsKeys(numbers: map<string, int>): (m: Mapping)
    ensures forall p :: Prefix(p) in m <==> p in numbers
    ensures forall p :: p in numbers ==> m[Prefix(p)] == numbers[p]
    ensures forall id :: Id(id) !in m
  {
    map p: string | p in numbers :: Prefix(p) := numbers[p]
  }

  lemma DictionaryRegistered(ps: seq<string>, first: int, numbers: map<string, int>)
    requires Dictionary(Table(ps), numbers, first)
    ensures AsKeys(numbers) == Registered(ps, first)
  {
    var a, b := AsKeys(numbers), Registered(ps, first);
    RegisteredKeys(ps, first);
    hide Table, IndexOf, AsKeys, Registered;
    forall k
      ensures k in a <==> k in b
      ensures k in a ==> a[k] == b[k]
    {
      match k
      case Id(id) =>
      case Prefix(p) =>
    }
  }

  class ModelIds {
    /** `MODEL_IDS_MAPPING`. */
    var mapping: Mapping
    /** The prefixes among them, for the metadata of the models. */
    var prefixToModelId: map<string, int>

    ghost predicate Valid()
      reads this
    {
      forall p :: p in prefixToModelId ==> Prefix(p) in mapping && mapping[Prefix(p)] == prefixToModelId[p]
    }

    constructor ()
      ensures Valid() && mapping == After([])
    {
      mapping, prefixToModelId := map[], map[];
    }

    /** An inference event reports the id of its model. */
    method InferenceModelNumber(modelId: int) returns (num: int)
      requires Valid()
      modifies this`mapping
      ensures Valid() && mapping == Next(old(mapping), Reported(modelId))
      ensures Id(modelId) in mapping && num == mapping[Id(modelId)]
    {
      if Id(modelId) !in mapping {
        mapping := mapping[Id(modelId) := |mapping|];
      }
      num := mapping[Id(modelId)];
    }

    /** An increment of events is renumbered; None is the failure of the renumbering, which loses
        the increment. */
    method RenumberIncrement(newTraceEvents: seq<TefEvent>) returns (r: Option<seq<TefEvent>>)
      requires Valid()
      modifies this
      ensures Valid()
      ensures var runs := Runs(newTraceEvents);
              var ps := Shown(newTraceEvents, runs);
              && (r == None <==> runs != [] && runs[0].exit == |newTraceEvents| - 1)
              && (r.Some? ==> r.value == ApplyRuns(newTraceEvents, runs, First(old(mapping))))
              && mapping == Next(old(mapping), Parsed(if r.Some? then ps else []))
    {
      hide Table, Shown, Runs, ApplyRuns, IndexOf, Dictionary, Registered, Next, First, WithoutZero;
      ghost var was := mapping;
      mapping := mapping - {Id(0)};
      var first := |mapping|;
      NextParsed(was, Shown(newTraceEvents, Runs(newTraceEvents)));
      var result := TvmRecalculateModelNumbers(newTraceEvents, first);
      ghost var ps := Shown(newTraceEvents, Runs(newTraceEvents));
      if result == None {
        return None;
      }
      Update(ps, first, result.value.1);
      r := Some(result.value.0);
    }

    /** Both dictionaries take over what the renumbering returned. */
    method Update(ghost ps: seq<string>, ghost first: int, numbers: map<string, int>)
      requires Valid() && Dictionary(Table(ps), numbers, first)
      modifies this
      ensures Valid()
      ensures mapping == old(mapping) + Registered(ps, first)
      ensures prefixToModelId == old(prefixToModelId) + numbers
    {
      DictionaryRegistered(ps, first, numbers);
      mapping := mapping + AsKeys(numbers);
      prefixToModelId := prefixToModelId + numbers;
    }
  }
}
