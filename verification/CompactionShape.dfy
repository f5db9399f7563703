/** What every scan keeps, and the shape of a compacted log that follows:
    the naming history is verbatim, the rest is one bounded section per texture. */
module CompactionShape {
  import opened IntegerLaws
  import opened Keyed
  import opened TextureLog
  import opened TextureMachine

  ghost predicate ValidLive(id: GLuint, t: LiveTexture) {
    && DistinctKeys(PNAME_OF, t.params)
    && DistinctKeys(LEVEL_OF, t.images)
    && (Untouched(t) ==> t == FRESH_TEXTURE)
    && (!Untouched(t) ==> id != 0)
  }

  ghost predicate ValidScan(s: Scan) {
    && (forall i, j :: 0 <= i < j < |s.order| ==> s.order[i] != s.order[j])
    && (forall id :: id in s.live ==> id in s.order)
    && (forall id :: id in s.live ==> ValidLive(id, s.live[id]))
    && (forall e :: e in s.kept ==> IsNaming(e))
  }

  lemma {:induction false} AddUnseenFacts(order: seq<GLuint>, ids: seq<GLuint>)
    requires forall i, j :: 0 <= i < j < |order| ==> order[i] != order[j]
    ensures var r := AddUnseen(order, ids);
      && (forall i, j :: 0 <= i < j < |r| ==> r[i] != r[j])
      && (forall id :: id in r <==> id in order || id in ids)
    decreases |ids|
  {
    if ids != [] {
      var next := if ids[0] in order then order else order + [ids[0]];
      AddUnseenFacts(next, ids[1..]);
      assert forall id :: id in ids <==> id == ids[0] || id in ids[1..];
    }
  }

  lemma StepKeepsValid(s: Scan, e: Entry)
    requires ValidScan(s)
    ensures ValidScan(ScanStep(s, e))
  {
    match e {
      case GenTextures(ids) =>
        AddUnseenFacts(s.order, ids);
      case DeleteTextures(ids) =>
      case BindTexture(target, texture) =>
      case TexParameter(target, pname, param) =>
        var id := BoundName(s.bound, target);
        if id != 0 && id in s.live {
          PutKeepsDistinct(PNAME_OF, s.live[id].params, (pname, param));
        }
      case TexImage2D(call) =>
        var id := BoundName(s.bound, call.target);
        if id != 0 && id in s.live {
          PutKeepsDistinct(LEVEL_OF, s.live[id].images, call);
        }
    }
  }

  lemma {:induction false} ScanKeepsValid(s: Scan, log: seq<Entry>)
    requires ValidScan(s)
    ensures ValidScan(ScanFrom(s, log))
    decreases |log|
  {
    if log != [] {
      StepKeepsValid(s, log[0]);
      ScanKeepsValid(ScanStep(s, log[0]), log[1..]);
    }
  }

  lemma {:induction false} ScanConcat(s: Scan, a: seq<Entry>, b: seq<Entry>)
    ensures ScanFrom(s, a + b) == ScanFrom(ScanFrom(s, a), b)
    decreases |a|
  {
    if a == [] {
      assert a + b == b;
    } else {
      assert (a + b)[1..] == a[1..] + b;
      ScanConcat(ScanStep(s, a[0]), a[1..], b);
    }
  }

  lemma {:induction false} ScanKeepsNaming(s: Scan, log: seq<Entry>)
    ensures ScanFrom(s, log).kept == s.kept + Naming(log)
    decreases |log|
  {
    if log == [] {
      assert Naming(log) == [];
    } else {
      var head := if IsNaming(log[0]) then [log[0]] else [];
      assert ScanStep(s, log[0]).kept == s.kept + head;
      ScanKeepsNaming(ScanStep(s, log[0]), log[1..]);
      assert s.kept + head + Naming(log[1..]) == s.kept + (head + Naming(log[1..]));
    }
  }

  lemma {:induction false} NamingOfNaming(log: seq<Entry>)
    ensures Naming(Naming(log)) == Naming(log)
    ensures forall e :: e in Naming(log) ==> IsNaming(e)
  {
    if log != [] {
      NamingOfNaming(log[1..]);
      NamingConcat(if IsNaming(log[0]) then [log[0]] else [], Naming(log[1..]));
    }
  }

  lemma {:induction false} NamingOfEmission(order: seq<GLuint>, live: map<GLuint, LiveTexture>)
    ensures Naming(Emit(order, live)) == []
  {
    if order != [] {
      var head := SectionIfNeeded(order[0], live);
      NoNaming(head);
      NamingConcat(head, Emit(order[1..], live));
      NamingOfEmission(order[1..], live);
    }
  }

  lemma {:induction false} NoNaming(log: seq<Entry>)
    requires forall e :: e in log ==> !IsNaming(e)
    ensures Naming(log) == []
  {
    if log != [] {
      NoNaming(log[1..]);
    }
  }

  /** Every Gen and Delete survives verbatim, in order, and ahead of the rest. */
  lemma CompactKeepsNaming(log: seq<Entry>)
    ensures Naming(Compact(log)) == Naming(log)
    ensures Naming(log) <= Compact(log)
    ensures forall e :: e in Compact(log)[|Naming(log)|..] ==> !IsNaming(e)
  {
    var s := ScanLog(log);
    ScanKeepsNaming(EMPTY_SCAN, log);
    assert s.kept == Naming(log);
    NamingOfNaming(log);
    NamingOfEmission(s.order, s.live);
    NamingConcat(s.kept, Emit(s.order, s.live));
    assert Compact(log)[|Naming(log)|..] == Emit(s.order, s.live);
    EmissionIsNotNaming(s.order, s.live);
  }

  lemma {:induction false} EmissionIsNotNaming(order: seq<GLuint>, live: map<GLuint, LiveTexture>)
    ensures forall e :: e in Emit(order, live) ==> !IsNaming(e)
  {
    if order != [] {
      EmissionIsNotNaming(order[1..], live);
    }
  }

  // ----- in which order --------------------------------------------------

  function GeneratedNames(log: seq<Entry>): seq<GLuint> {
    if log == [] then [] else (if log[0].GenTextures? then log[0].names else []) + GeneratedNames(log[1..])
  }

  lemma {:induction false} AddUnseenTwice(order: seq<GLuint>, a: seq<GLuint>, b: seq<GLuint>)
    ensures AddUnseen(order, a + b) == AddUnseen(AddUnseen(order, a), b)
    decreases |a|
  {
    if a == [] {
      assert a + b == b;
    } else {
      assert (a + b)[1..] == a[1..] + b;
      AddUnseenTwice(if a[0] in order then order else order + [a[0]], a[1..], b);
    }
  }

  lemma {:induction false} ScanOrder(s: Scan, log: seq<Entry>)
    ensures ScanFrom(s, log).order == AddUnseen(s.order, GeneratedNames(log))
    decreases |log|
  {
    if log != [] {
      var head := if log[0].GenTextures? then log[0].names else [];
      assert ScanStep(s, log[0]).order == AddUnseen(s.order, head);
      ScanOrder(ScanStep(s, log[0]), log[1..]);
      AddUnseenTwice(s.order, head, GeneratedNames(log[1..]));
    }
  }

  /** Place q of `names` is where order[j] is first seen, after exactly the names before it in `order`. */
  ghost predicate FirstSeenAt(order: seq<GLuint>, names: seq<GLuint>, j: nat, q: nat)
    requires j < |order|
  {
    && q < |names| && names[q] == order[j] && order[j] !in names[..q]
    && forall id :: id in names[..q] <==> id in order[..j]
  }

  lemma {:induction false} FirstSeenOrder(names: seq<GLuint>, j: nat) returns (q: nat)
    requires j < |AddUnseen([], names)|
    ensures FirstSeenAt(AddUnseen([], names), names, j, q)
    decreases |names|
  {
    var n := |names| - 1;
    var before, x, order := names[..n], names[n], AddUnseen([], names[..n]);
    AddUnseenFacts([], before);
    AddUnseenTwice([], before, [x]);
    assert names == before + [x] && [x][1..] == [];
    var after := AddUnseen([], names);
    assert after == if x in order then order else order + [x];
    if j < |order| {
      q := FirstSeenOrder(before, j);
      assert names[..q] == before[..q] && after[..j] == order[..j];
    } else {
      q := n;
      assert after[..j] == order;
    }
  }

  /** The compacted log lists the Gen and Delete calls and then one section after the other, the textures in the
      order in which their names were first generated, each name once. */
  lemma SectionsInOrder(log: seq<Entry>, j: nat) returns (q: nat)
    requires j < |ScanLog(log).order|
    ensures var order, live := ScanLog(log).order, ScanLog(log).live;
      && Compact(log) == Naming(log) + Emit(order[..j], live)
                         + ((if order[j] in live && !(live[order[j]].params == [] && live[order[j]].images == [])
                             then Section(order[j], live[order[j]]) else []) + Emit(order[j + 1..], live))
      && FirstSeenAt(order, GeneratedNames(log), j, q)
  {
    hide Emit, Section, SectionIfNeeded, FirstSeenAt, Naming;
    var s := ScanLog(log);
    ScanKeepsNaming(EMPTY_SCAN, log);
    ScanOrder(EMPTY_SCAN, log);
    q := FirstSeenOrder(GeneratedNames(log), j);
    EmitAt(s.order, s.live, j);
    SectionNeeded(s.order[j], s.live);
    assert s.kept == Naming(log);
    Regrouped(Naming(log), Emit(s.order[..j], s.live),
              SectionIfNeeded(s.order[j], s.live) + Emit(s.order[j + 1..], s.live));
  }

  lemma SectionNeeded(id: GLuint, live: map<GLuint, LiveTexture>)
    ensures SectionIfNeeded(id, live)
            == if id in live && !(live[id].params == [] && live[id].images == []) then Section(id, live[id]) else []
  {
  }

  lemma Regrouped(a: seq<Entry>, b: seq<Entry>, c: seq<Entry>)
    ensures a + (b + c) == a + b + c
  {
  }

  lemma {:induction false} EmitAt(order: seq<GLuint>, live: map<GLuint, LiveTexture>, j: nat)
    requires j < |order|
    ensures Emit(order, live)
            == Emit(order[..j], live) + (SectionIfNeeded(order[j], live) + Emit(order[j + 1..], live))
    decreases |order|
  {
    hide SectionIfNeeded;
    if j > 0 {
      EmitAt(order[1..], live, j - 1);
      assert order[1..][..j - 1] == order[..j][1..] && order[1..][j..] == order[j + 1..];
      var a, b := SectionIfNeeded(order[0], live), Emit(order[..j][1..], live);
      var c := SectionIfNeeded(order[j], live) + Emit(order[j + 1..], live);
      assert a + (b + c) == (a + b) + c;
    }
  }

  // ----- how much survives ----------------------------------------------

  function NamesAfter(names: set<GLuint>, e: Entry): set<GLuint> {
    match e
    case GenTextures(ids) => names + (set i | i in ids)
    case DeleteTextures(ids) => names - (set i | i in ids)
    case _ => names
  }

  /** Names generated and not deleted by the end of the log. */
  function LiveNames(names: set<GLuint>, log: seq<Entry>): set<GLuint>
    decreases |log|
  {
    if log == [] then names else LiveNames(NamesAfter(names, log[0]), log[1..])
  }

  function Pnames(log: seq<Entry>): set<int> {
    set e | e in log && e.TexParameter? :: e.pname as int
  }

  function Levels(log: seq<Entry>): set<int> {
    set e | e in log && e.TexImage2D? :: e.call.level as int
  }

  lemma {:induction false} ScanLiveNames(s: Scan, log: seq<Entry>)
    ensures ScanFrom(s, log).live.Keys == LiveNames(s.live.Keys, log)
    decreases |log|
  {
    if log != [] {
      ScanLiveNames(ScanStep(s, log[0]), log[1..]);
      match log[0] {
        case GenTextures(ids) =>
          assert Generate(s.live, ids).Keys == s.live.Keys + (set i | i in ids);
        case DeleteTextures(ids) =>
        case BindTexture(_, _) =>
        case TexParameter(target, pname, param) =>
          assert ScanStep(s, log[0]).live.Keys == s.live.Keys;
        case TexImage2D(call) =>
          assert ScanStep(s, log[0]).live.Keys == s.live.Keys;
      }
    }
  }

  ghost predicate WithinSets(s: Scan, pnames: set<int>, levels: set<int>) {
    forall id :: id in s.live ==>
      && (forall p :: p in s.live[id].params ==> PNAME_OF(p) in pnames)
      && (forall c :: c in s.live[id].images ==> LEVEL_OF(c) in levels)
  }

  lemma StepWithinSets(s: Scan, e: Entry, pnames: set<int>, levels: set<int>)
    requires ValidScan(s) && WithinSets(s, pnames, levels)
    requires e.TexParameter? ==> e.pname as int in pnames
    requires e.TexImage2D? ==> e.call.level as int in levels
    ensures WithinSets(ScanStep(s, e), pnames, levels)
  {
    match e {
      case TexParameter(target, pname, param) =>
        var id := BoundName(s.bound, target);
        if id != 0 && id in s.live {
          PutKeepsDistinct(PNAME_OF, s.live[id].params, (pname, param));
        }
      case TexImage2D(call) =>
        var id := BoundName(s.bound, call.target);
        if id != 0 && id in s.live {
          PutKeepsDistinct(LEVEL_OF, s.live[id].images, call);
        }
      case _ =>
    }
  }

  lemma {:induction false} ScanWithinSets(s: Scan, log: seq<Entry>, pnames: set<int>, levels: set<int>)
    requires ValidScan(s) && WithinSets(s, pnames, levels)
    requires forall e :: e in log && e.TexParameter? ==> e.pname as int in pnames
    requires forall e :: e in log && e.TexImage2D? ==> e.call.level as int in levels
    ensures WithinSets(ScanFrom(s, log), pnames, levels)
    decreases |log|
  {
    if log != [] {
      StepWithinSets(s, log[0], pnames, levels);
      StepKeepsValid(s, log[0]);
      ScanWithinSets(ScanStep(s, log[0]), log[1..], pnames, levels);
    }
  }

  lemma {:induction false} DistinctKeysFitIn<T>(key: T -> int, xs: seq<T>, bound: set<int>)
    requires DistinctKeys(key, xs) && forall x :: x in xs ==> key(x) in bound
    ensures |xs| <= |bound|
    decreases |xs|
  {
    if xs != [] {
      var last := |xs| - 1;
      forall x | x in xs[..last] ensures key(x) in bound - {key(xs[last])} {
        var i :| 0 <= i < last && xs[i] == x;
      }
      DistinctKeysFitIn(key, xs[..last], bound - {key(xs[last])});
    }
  }

  /** How many of the names in `order` are live. */
  function LiveCount(order: seq<GLuint>, live: map<GLuint, LiveTexture>): nat {
    if order == [] then 0 else (if order[0] in live then 1 else 0) + LiveCount(order[1..], live)
  }

  lemma {:induction false} LiveCountBound(order: seq<GLuint>, live: map<GLuint, LiveTexture>, names: set<GLuint>)
    requires forall i, j :: 0 <= i < j < |order| ==> order[i] != order[j]
    requires forall id :: id in order && id in live ==> id in names
    ensures LiveCount(order, live) <= |names|
  {
    if order != [] {
      if order[0] in live {
        assert order[0] !in order[1..];
        LiveCountBound(order[1..], live, names - {order[0]});
      } else {
        LiveCountBound(order[1..], live, names);
      }
    }
  }

  lemma SectionFits(id: GLuint, live: map<GLuint, LiveTexture>, cap: nat)
    requires id in live ==> 1 + |live[id].params| + |live[id].images| <= cap
    ensures |SectionIfNeeded(id, live)| <= if id in live then cap else 0
  {
  }

  lemma OneMoreCap(n: nat, cap: nat)
    ensures (1 + n) * cap == cap + n * cap && (0 + n) * cap == n * cap
  {
  }

  lemma {:induction false} EmissionFits(order: seq<GLuint>, live: map<GLuint, LiveTexture>, cap: nat)
    requires forall id :: id in live ==> 1 + |live[id].params| + |live[id].images| <= cap
    ensures |Emit(order, live)| <= LiveCount(order, live) * cap
  {
    hide SectionIfNeeded;
    if order != [] {
      var rest := LiveCount(order[1..], live);
      EmissionFits(order[1..], live, cap);
      SectionFits(order[0], live, cap);
      OneMoreCap(rest, cap);
    }
  }

  lemma SectionSizes(log: seq<Entry>)
    ensures forall id :: id in ScanLog(log).live ==>
      1 + |ScanLog(log).live[id].params| + |ScanLog(log).live[id].images| <= 1 + |Pnames(log)| + |Levels(log)|
  {
    var s := ScanLog(log);
    ScanKeepsValid(EMPTY_SCAN, log);
    ScanWithinSets(EMPTY_SCAN, log, Pnames(log), Levels(log));
    forall id | id in s.live
      ensures 1 + |s.live[id].params| + |s.live[id].images| <= 1 + |Pnames(log)| + |Levels(log)|
    {
      DistinctKeysFitIn(PNAME_OF, s.live[id].params, Pnames(log));
      DistinctKeysFitIn(LEVEL_OF, s.live[id].images, Levels(log));
    }
  }

  lemma CompactFits(log: seq<Entry>, names: set<GLuint>, cap: nat)
    requires names == LiveNames({}, log)
    requires forall id :: id in ScanLog(log).live ==>
      1 + |ScanLog(log).live[id].params| + |ScanLog(log).live[id].images| <= cap
    ensures |Compact(log)| <= |Naming(log)| + |names| * cap
  {
    var s := ScanLog(log);
    ScanKeepsValid(EMPTY_SCAN, log);
    ScanKeepsNaming(EMPTY_SCAN, log);
    ScanLiveNames(EMPTY_SCAN, log);
    assert EMPTY_SCAN.live.Keys == {};
    EmissionFits(s.order, s.live, cap);
    LiveCountBound(s.order, s.live, names);
    ProductOrder(|names|, LiveCount(s.order, s.live), cap);
  }

  /** Apart from the Gen and Delete calls, which are all kept, the compacted log is bounded by what is alive. */
  lemma CompactIsBounded(log: seq<Entry>, cap: nat)
    requires cap == 1 + |Pnames(log)| + |Levels(log)|
    ensures |Naming(log)| <= |Compact(log)| <= |Naming(log)| + |LiveNames({}, log)| * cap
  {
    SectionSizes(log);
    CompactFits(log, LiveNames({}, log), cap);
    CompactKeepsNaming(log);
  }

  /** A session that generates and deletes one texture n times. */
  function Churn(n: nat): seq<Entry> {
    if n == 0 then [] else [GenTextures([1]), DeleteTextures([1])] + Churn(n - 1)
  }

  /** So no bound depends on what is alive only: with nothing alive, the compacted log grows with every texture
      ever generated and deleted. */
  lemma ChurnIsNotBounded(n: nat)
    ensures LiveNames({}, Churn(n)) == {} && |Compact(Churn(n))| == 2 * n
  {
    ChurnFacts(n);
    CompactIsBounded(Churn(n), 1 + |Pnames(Churn(n))| + |Levels(Churn(n))|);
  }

  lemma {:induction false} ChurnFacts(n: nat)
    ensures LiveNames({}, Churn(n)) == {} && |Naming(Churn(n))| == 2 * n
  {
    if n > 0 {
      var log := Churn(n);
      ChurnFacts(n - 1);
      assert log[1..] == [DeleteTextures([1])] + Churn(n - 1) && log[1..][1..] == Churn(n - 1);
      assert NamesAfter(NamesAfter({}, log[0]), log[1]) == {};
    }
  }
}
