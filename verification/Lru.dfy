/** The plain sequence that the linked-list cache stands for, least recently used entry first. */
module Lru {
  datatype Entry = Entry(id: string, data: string, stamp: nat)

  function Total(es: seq<Entry>): nat {
    if es == [] then 0 else |es[0].data| + Total(es[1..])
  }

  ghost predicate Distinct(es: seq<Entry>) {
    forall i, j :: 0 <= i < j < |es| ==> es[i].id != es[j].id
  }

  predicate Has(es: seq<Entry>, id: string) {
    exists i :: 0 <= i < |es| && es[i].id == id
  }

  function IndexOf(es: seq<Entry>, id: string): nat
    requires Has(es, id)
    ensures IndexOf(es, id) < |es| && es[IndexOf(es, id)].id == id
  {
    if es[0].id == id then 0
    else
      assert Has(es[1..], id) by {
        var i :| 0 <= i < |es| && es[i].id == id;
        assert es[1..][i - 1].id == id;
      }
      1 + IndexOf(es[1..], id)
  }

  /** The entry at `p` becomes the most recent one. */
  function Touched(es: seq<Entry>, p: nat, now: nat): seq<Entry>
    requires p < |es|
  {
    es[..p] + es[p + 1..] + [es[p].(stamp := now)]
  }

  /** Entries leave from the front until `need` more bytes fit. */
  function Evicted(es: seq<Entry>, capacity: nat, need: nat): seq<Entry> {
    if es == [] || Total(es) + need <= capacity then es else Evicted(es[1..], capacity, need)
  }

  predicate Accepts(es: seq<Entry>, capacity: nat, id: string, data: string) {
    !Has(es, id) && |data| <= capacity
  }

  function Inserted(es: seq<Entry>, capacity: nat, id: string, data: string, now: nat): seq<Entry> {
    Evicted(es, capacity, |data|) + [Entry(id, data, now)]
  }

  // ---------------------------------------------------------------- eviction

  lemma {:induction false} TotalConcat(a: seq<Entry>, b: seq<Entry>)
    ensures Total(a + b) == Total(a) + Total(b)
  {
    if a == [] {
      assert a + b == b;
    } else {
      assert (a + b)[1..] == a[1..] + b;
      TotalConcat(a[1..], b);
    }
  }

  /** Eviction drops exactly the shortest front run that makes room. */
  lemma {:induction false} EvictsShortestRun(es: seq<Entry>, capacity: nat, need: nat) returns (k: nat)
    requires need <= capacity
    ensures k <= |es| && Evicted(es, capacity, need) == es[k..]
    ensures Total(es[k..]) + need <= capacity
    ensures forall j :: 0 <= j < k ==> Total(es[j..]) + need > capacity
  {
    assert es[0..] == es;
    if es == [] || Total(es) + need <= capacity {
      k := 0;
    } else {
      k := EvictsShortestRun(es[1..], capacity, need);
      assert es[1..][k..] == es[k + 1..];
      forall j | 0 <= j < k + 1
        ensures Total(es[j..]) + need > capacity
      {
        if j > 0 {
          assert es[1..][j - 1..] == es[j..];
        }
      }
      k := k + 1;
    }
  }

  lemma TotalCut(es: seq<Entry>, p: nat)
    requires p < |es|
    ensures Total(es) == Total(es[..p]) + |es[p].data| + Total(es[p + 1..])
  {
    assert es == es[..p] + es[p..] && es[p..][1..] == es[p + 1..];
    TotalConcat(es[..p], es[p..]);
  }

  lemma TouchedKeeps(es: seq<Entry>, p: nat, now: nat)
    requires p < |es|
    ensures Total(Touched(es, p, now)) == Total(es)
  {
    var a, b := es[..p], es[p + 1..];
    TotalCut(es, p);
    TotalConcat(a + b, [es[p].(stamp := now)]);
    TotalConcat(a, b);
  }

  // ---------------------------------------------------------------- whole runs

  datatype Call =
    | Load(id: string, now: nat)
    | Insert(id: string, data: string, now: nat)
    | Clear

  /** The call succeeds, and so counts as a use of `id`. */
  predicate Uses(es: seq<Entry>, capacity: nat, c: Call, id: string) {
    match c
    case Load(i, _) => i == id && Has(es, id)
    case Insert(i, data, _) => i == id && Accepts(es, capacity, id, data)
    case Clear => false
  }

  /** What counts as a use: finding an entry, or inserting a new one that fits in an empty cache. */
  lemma UsesExactly(es: seq<Entry>, capacity: nat, c: Call, id: string)
    ensures Uses(es, capacity, c, id) <==>
            !c.Clear? && c.id == id &&
            if c.Load? then exists e :: e in es && e.id == id
            else |c.data| <= capacity && forall e :: e in es ==> e.id != id
  {
    if Has(es, id) {
      assert es[IndexOf(es, id)] in es;
    }
  }

  function Apply(es: seq<Entry>, capacity: nat, c: Call): seq<Entry> {
    match c
    case Load(id, now) => if Has(es, id) then Touched(es, IndexOf(es, id), now) else es
    case Insert(id, data, now) => if Accepts(es, capacity, id, data) then Inserted(es, capacity, id, data, now) else es
    case Clear => []
  }

  /**
   * What a call leaves, whatever was there: an insertion that counts as a use puts the new entry at the
   * back, where a load that counts puts the entry it found; a call that does not count changes nothing.
   */
  lemma UsedIsLast(es: seq<Entry>, capacity: nat, c: Call)
    requires !c.Clear?
    ensures var es' := Apply(es, capacity, c);
            if !Uses(es, capacity, c, c.id) then es' == es
            else
              && es' != [] && es'[|es'| - 1].id == c.id && es'[|es'| - 1].stamp == c.now
              && if c.Insert? then es'[|es'| - 1].data == c.data
                 else Entry(c.id, es'[|es'| - 1].data, es[IndexOf(es, c.id)].stamp) in es
  {
    if c.Load? && Has(es, c.id) {
      assert es[IndexOf(es, c.id)] in es;
    }
  }

  /** The entries after a run of calls on an empty cache. */
  function Run(capacity: nat, calls: seq<Call>): seq<Entry> {
    if calls == [] then []
    else Apply(Run(capacity, calls[..|calls| - 1]), capacity, calls[|calls| - 1])
  }

  /** No run ever holds more bytes than the capacity. */
  lemma {:induction false} RunFits(capacity: nat, calls: seq<Call>)
    ensures Total(Run(capacity, calls)) <= capacity
    decreases |calls|
  {
    if calls != [] {
      var es, c := Run(capacity, calls[..|calls| - 1]), calls[|calls| - 1];
      RunFits(capacity, calls[..|calls| - 1]);
      match c
      case Load(id, now) =>
        if Has(es, id) {
          TouchedKeeps(es, IndexOf(es, id), now);
        }
      case Insert(id, data, now) =>
        if Accepts(es, capacity, id, data) {
          var k := EvictsShortestRun(es, capacity, |data|);
          TotalConcat(es[k..], [Entry(id, data, now)]);
        }
      case Clear =>
    }
  }

  /** When `id` was last loaded or inserted with success; -1 if never. */
  function LastUse(capacity: nat, calls: seq<Call>, id: string): int {
    if calls == [] then -1
    else
      var before := calls[..|calls| - 1];
      if Uses(Run(capacity, before), capacity, calls[|calls| - 1], id) then |calls| - 1
      else LastUse(capacity, before, id)
  }

  lemma {:induction false} LastUseBounded(capacity: nat, calls: seq<Call>, id: string)
    ensures -1 <= LastUse(capacity, calls, id) < |calls|
  {
    if calls != [] {
      LastUseBounded(capacity, calls[..|calls| - 1], id);
    }
  }

  /** Residents stand in the order of their last uses over the whole run. */
  ghost predicate ByRecency(capacity: nat, calls: seq<Call>) {
    var es := Run(capacity, calls);
    && (forall i :: 0 <= i < |es| ==> LastUse(capacity, calls, es[i].id) >= 0)
    && (forall i, j :: 0 <= i < j < |es| ==> LastUse(capacity, calls, es[i].id) < LastUse(capacity, calls, es[j].id))
  }

  /** Nothing used more recently than a resident has been evicted. */
  ghost predicate NoRecentVictim(capacity: nat, calls: seq<Call>) {
    var es := Run(capacity, calls);
    forall i, id :: 0 <= i < |es| && LastUse(capacity, calls, es[i].id) < LastUse(capacity, calls, id) ==> Has(es, id)
  }

  /**
   * What a successful use does to the entries `x + a + y + b` there were: `x` was evicted, `y` is at
   * most the old entry of the used identifier, and the rest keep their order before the used one.
   */
  ghost predicate Reordered(es: seq<Entry>, es': seq<Entry>, id: string,
                            x: seq<Entry>, a: seq<Entry>, y: seq<Entry>, b: seq<Entry>) {
    && es == x + a + y + b
    && |es'| == |a| + |b| + 1 && es'[..|es'| - 1] == a + b && es'[|es'| - 1].id == id
    && (forall e :: e in y ==> e.id == id) && (forall e :: e in a + b ==> e.id != id)
  }

  lemma LoadReorders(es: seq<Entry>, capacity: nat, id: string, now: nat)
    requires Distinct(es) && Has(es, id)
    ensures var p := IndexOf(es, id);
            Reordered(es, Apply(es, capacity, Load(id, now)), id, [], es[..p], [es[p]], es[p + 1..])
  {
    var p := IndexOf(es, id);
    assert es == [] + es[..p] + [es[p]] + es[p + 1..];
    var es' := Touched(es, p, now);
    assert es'[..|es'| - 1] == es[..p] + es[p + 1..];
    OthersDiffer(es, p);
    hide IndexOf;
    hide Distinct;
  }

  lemma OthersDiffer(es: seq<Entry>, p: nat)
    requires Distinct(es) && p < |es|
    ensures forall e :: e in es[..p] + es[p + 1..] ==> e.id != es[p].id
  {
    forall e | e in es[..p] + es[p + 1..]
      ensures e.id != es[p].id
    {
      var i :| 0 <= i < |es| - 1 && e == (es[..p] + es[p + 1..])[i];
      assert e == es[if i < p then i else i + 1];
    }
  }

  lemma InsertReorders(es: seq<Entry>, capacity: nat, id: string, data: string, now: nat) returns (k: nat)
    requires Accepts(es, capacity, id, data)
    ensures k <= |es|
    ensures Reordered(es, Apply(es, capacity, Insert(id, data, now)), id, es[..k], es[k..], [], [])
  {
    k := EvictsShortestRun(es, capacity, |data|);
    assert es == es[..k] + es[k..] + [] + [];
    var es' := Inserted(es, capacity, id, data, now);
    assert es'[..|es'| - 1] == es[k..] == es[k..] + [];
    forall e | e in es[k..] + []
      ensures e.id != id
    {
      var i :| 0 <= i < |es[k..]| && e == es[k..][i];
      assert e == es[k + i];
    }
  }

  /** Where the entry at `i` stood before. */
  lemma OldPlace(es: seq<Entry>, es': seq<Entry>, id: string,
                 x: seq<Entry>, a: seq<Entry>, y: seq<Entry>, b: seq<Entry>, i: nat) returns (p: nat)
    requires Reordered(es, es', id, x, a, y, b) && i < |es'| - 1
    ensures p == (if i < |a| then |x| + i else |x| + |y| + i) && p < |es| && es[p] == es'[i] && es'[i].id != id
  {
    p := if i < |a| then |x| + i else |x| + |y| + i;
    assert es'[i] == es'[..|es'| - 1][i] == (a + b)[i];
    assert (a + b)[i] in a + b;
  }

  /** An entry not evicted and not the used one is still there. */
  lemma StillThere(es: seq<Entry>, es': seq<Entry>, id: string,
                   x: seq<Entry>, a: seq<Entry>, y: seq<Entry>, b: seq<Entry>, p: nat)
    requires Reordered(es, es', id, x, a, y, b) && |x| <= p < |es|
    ensures Has(es', es[p].id)
  {
    var i := p - |x|;
    if i < |a| {
      assert es'[i] == es'[..|es'| - 1][i] == a[i] == es[p];
    } else if i < |a| + |y| {
      assert es[p] == y[i - |a|] && es[p] in y;
      assert es'[|es'| - 1].id == es[p].id;
    } else {
      assert es'[i - |y|] == es'[..|es'| - 1][i - |y|] == b[i - |a| - |y|] == es[p];
    }
  }

  /** A successful use of `id` is its last use, and leaves the last uses of the others as they were. */
  lemma LastUseAfterUse(capacity: nat, calls: seq<Call>, id: string)
    requires calls != [] && Uses(Run(capacity, calls[..|calls| - 1]), capacity, calls[|calls| - 1], id)
    ensures LastUse(capacity, calls, id) == |calls| - 1
    ensures forall other :: other != id ==>
              LastUse(capacity, calls, other) == LastUse(capacity, calls[..|calls| - 1], other)
  {
    hide Run;
  }

  lemma UseKeepsRecency(capacity: nat, calls: seq<Call>, id: string,
                        x: seq<Entry>, a: seq<Entry>, y: seq<Entry>, b: seq<Entry>)
    requires calls != [] && ByRecency(capacity, calls[..|calls| - 1])
    requires Uses(Run(capacity, calls[..|calls| - 1]), capacity, calls[|calls| - 1], id)
    requires Reordered(Run(capacity, calls[..|calls| - 1]), Run(capacity, calls), id, x, a, y, b)
    ensures ByRecency(capacity, calls)
  {
    LastUseAfterUse(capacity, calls, id);
    hide LastUse;
    hide Run;
    hide Uses;
    var before := calls[..|calls| - 1];
    var es, es' := Run(capacity, before), Run(capacity, calls);
    var n := |es'| - 1;
    assert es'[n].id == id;
    forall i | 0 <= i < n
      ensures 0 <= LastUse(capacity, calls, es'[i].id) < |calls| - 1
    {
      var p := OldPlace(es, es', id, x, a, y, b, i);
      LastUseBounded(capacity, before, es[p].id);
    }
    forall i, j | 0 <= i < j < |es'|
      ensures LastUse(capacity, calls, es'[i].id) < LastUse(capacity, calls, es'[j].id)
    {
      if j < n {
        var p := OldPlace(es, es', id, x, a, y, b, i);
        var q := OldPlace(es, es', id, x, a, y, b, j);
      }
    }
  }

  lemma UseKeepsRecent(capacity: nat, calls: seq<Call>, id: string,
                       x: seq<Entry>, a: seq<Entry>, y: seq<Entry>, b: seq<Entry>)
    requires calls != [] && ByRecency(capacity, calls[..|calls| - 1]) && NoRecentVictim(capacity, calls[..|calls| - 1])
    requires Uses(Run(capacity, calls[..|calls| - 1]), capacity, calls[|calls| - 1], id)
    requires Reordered(Run(capacity, calls[..|calls| - 1]), Run(capacity, calls), id, x, a, y, b)
    ensures NoRecentVictim(capacity, calls)
  {
    LastUseAfterUse(capacity, calls, id);
    hide LastUse;
    hide Run;
    hide Uses;
    var before := calls[..|calls| - 1];
    var es, es' := Run(capacity, before), Run(capacity, calls);
    forall i, other | 0 <= i < |es'| && LastUse(capacity, calls, es'[i].id) < LastUse(capacity, calls, other)
      ensures Has(es', other)
    {
      LastUseBounded(capacity, calls, other);
      if other == id {
        assert es'[|es'| - 1].id == other;
      } else {
        var p := OldPlace(es, es', id, x, a, y, b, i);
        assert LastUse(capacity, before, es[p].id) < LastUse(capacity, before, other);
        var r := IndexOf(es, other);
        StillThere(es, es', id, x, a, y, b, r);
      }
    }
  }

  /**
   * After any run of calls the residents stand in the order of their last successful use over the
   * whole run, and whatever was used more recently than a resident is itself resident.
   */
  lemma {:induction false} LruOrder(capacity: nat, calls: seq<Call>)
    ensures ByRecency(capacity, calls) && NoRecentVictim(capacity, calls)
    decreases |calls|
  {
    if calls != [] {
      var before, c := calls[..|calls| - 1], calls[|calls| - 1];
      LruOrder(capacity, before);
      LruOrderStep(capacity, calls);
    }
  }

  lemma LruOrderStep(capacity: nat, calls: seq<Call>)
    requires calls != [] && ByRecency(capacity, calls[..|calls| - 1]) && NoRecentVictim(capacity, calls[..|calls| - 1])
    ensures ByRecency(capacity, calls) && NoRecentVictim(capacity, calls)
  {
    var before, c := calls[..|calls| - 1], calls[|calls| - 1];
    var es := Run(capacity, before);
    RecencyIsDistinct(capacity, before);
    if c.Load? && Has(es, c.id) {
      LoadReorders(es, capacity, c.id, c.now);
      var p := IndexOf(es, c.id);
      UseKeepsRecency(capacity, calls, c.id, [], es[..p], [es[p]], es[p + 1..]);
      UseKeepsRecent(capacity, calls, c.id, [], es[..p], [es[p]], es[p + 1..]);
    } else if c.Insert? && Accepts(es, capacity, c.id, c.data) {
      var k := InsertReorders(es, capacity, c.id, c.data, c.now);
      UseKeepsRecency(capacity, calls, c.id, es[..k], es[k..], [], []);
      UseKeepsRecent(capacity, calls, c.id, es[..k], es[k..], [], []);
    } else {
      NoUseKeepsOrder(capacity, calls);
    }
  }

  lemma NoUseKeepsOrder(capacity: nat, calls: seq<Call>)
    requires calls != [] && ByRecency(capacity, calls[..|calls| - 1]) && NoRecentVictim(capacity, calls[..|calls| - 1])
    requires var before, c := calls[..|calls| - 1], calls[|calls| - 1]; forall id :: !Uses(Run(capacity, before), capacity, c, id)
    ensures ByRecency(capacity, calls) && NoRecentVictim(capacity, calls)
  {
    var before, c := calls[..|calls| - 1], calls[|calls| - 1];
    assert forall id :: LastUse(capacity, calls, id) == LastUse(capacity, before, id);
    var es := Run(capacity, before);
    assert c.Load? ==> !Uses(es, capacity, c, c.id);
    assert c.Insert? ==> !Uses(es, capacity, c, c.id);
    assert Run(capacity, calls) == es || Run(capacity, calls) == [];
  }

  /**
   * After any run, a file of at most `capacity` bytes that was just inserted, and either was not there
   * or was refused because it was, is found by the next load, which makes it the most recent entry.
   */
  lemma InsertedIsFound(capacity: nat, calls: seq<Call>, id: string, data: string, now: nat, later: nat)
    requires |data| <= capacity
    ensures var insert, load := Insert(id, data, now), Load(id, later);
            var es, es' := Run(capacity, calls + [insert]), Run(capacity, calls + [insert, load]);
            && (exists e :: e in es && e.id == id)
            && Uses(es, capacity, load, id) && !Uses(es, capacity, insert, id)
            && es' != [] && es'[|es'| - 1].id == id && es'[|es'| - 1].stamp == later
  {
    var insert, load := Insert(id, data, now), Load(id, later);
    var one, two := calls + [insert], calls + [insert, load];
    assert one[..|one| - 1] == calls && two[..|two| - 1] == one;
    var before, es := Run(capacity, calls), Run(capacity, one);
    UsedIsLast(before, capacity, insert);
    if Uses(before, capacity, insert, id) {
      assert es[|es| - 1] in es;
    } else {
      UsesExactly(before, capacity, insert, id);
    }
    UsesExactly(es, capacity, load, id);
    UsesExactly(es, capacity, insert, id);
    UsedIsLast(es, capacity, load);
  }

  /** Every resident carries the clock reading of its last use. */
  ghost predicate Stamped(capacity: nat, calls: seq<Call>) {
    var es := Run(capacity, calls);
    forall i :: 0 <= i < |es| ==>
      var u := LastUse(capacity, calls, es[i].id);
      0 <= u < |calls| && !calls[u].Clear? && es[i].stamp == calls[u].now
  }

  lemma {:induction false} StampsAreLastUses(capacity: nat, calls: seq<Call>)
    ensures Stamped(capacity, calls)
    decreases |calls|
  {
    if calls != [] {
      var before, c := calls[..|calls| - 1], calls[|calls| - 1];
      StampsAreLastUses(capacity, before);
      LruOrder(capacity, before);
      var es := Run(capacity, before);
      RecencyIsDistinct(capacity, before);
      if c.Load? && Has(es, c.id) {
        LoadReorders(es, capacity, c.id, c.now);
        var p := IndexOf(es, c.id);
        UseKeepsStamps(capacity, calls, c.id, [], es[..p], [es[p]], es[p + 1..]);
      } else if c.Insert? && Accepts(es, capacity, c.id, c.data) {
        var k := InsertReorders(es, capacity, c.id, c.data, c.now);
        UseKeepsStamps(capacity, calls, c.id, es[..k], es[k..], [], []);
      } else {
        forall id
          ensures !Uses(es, capacity, c, id)
        {
        }
      }
    }
  }

  lemma UseKeepsStamps(capacity: nat, calls: seq<Call>, id: string,
                       x: seq<Entry>, a: seq<Entry>, y: seq<Entry>, b: seq<Entry>)
    requires calls != [] && Stamped(capacity, calls[..|calls| - 1])
    requires Uses(Run(capacity, calls[..|calls| - 1]), capacity, calls[|calls| - 1], id)
    requires Reordered(Run(capacity, calls[..|calls| - 1]), Run(capacity, calls), id, x, a, y, b)
    ensures Stamped(capacity, calls)
  {
    var before := calls[..|calls| - 1];
    var es, es' := Run(capacity, before), Run(capacity, calls);
    LastUseAfterUse(capacity, calls, id);
    var c := calls[|calls| - 1];
    UsedIsLast(es, capacity, c);
    hide LastUse;
    hide Run;
    hide Uses;
    forall i | 0 <= i < |es'| - 1
      ensures var u := LastUse(capacity, calls, es'[i].id);
              0 <= u < |calls| && !calls[u].Clear? && es'[i].stamp == calls[u].now
    {
      var p := OldPlace(es, es', id, x, a, y, b, i);
      assert before[LastUse(capacity, before, es[p].id)] == calls[LastUse(capacity, before, es[p].id)];
    }
  }

  lemma RecencyIsDistinct(capacity: nat, calls: seq<Call>)
    requires ByRecency(capacity, calls)
    ensures Distinct(Run(capacity, calls))
  {
    var es := Run(capacity, calls);
    forall i, j | 0 <= i < j < |es|
      ensures es[i].id != es[j].id
    {
      assert LastUse(capacity, calls, es[i].id) < LastUse(capacity, calls, es[j].id);
    }
  }

  /** With a clock that never goes back, timestamps grow from the front to the back. */
  lemma OlderStampsFirst(capacity: nat, calls: seq<Call>)
    requires forall i, j :: 0 <= i < j < |calls| && !calls[i].Clear? && !calls[j].Clear? ==> calls[i].now <= calls[j].now
    ensures var es := Run(capacity, calls);
            forall i, j :: 0 <= i < j < |es| ==> es[i].stamp <= es[j].stamp
  {
    LruOrder(capacity, calls);
    StampsAreLastUses(capacity, calls);
    var es := Run(capacity, calls);
    forall i, j | 0 <= i < j < |es|
      ensures es[i].stamp <= es[j].stamp
    {
      assert LastUse(capacity, calls, es[i].id) < LastUse(capacity, calls, es[j].id);
    }
  }
}
