/** The auditor: store presence, gaps in the catalog sequence, non-persistent stores. */
module Audits {
  import opened Bytes
  import opened Numbers
  import opened OnDisk
  import opened Pairing
  import opened Sorting
  import opened Volumes
  import opened Wrappers
  import StoreInfos

  datatype Anomaly =
    | NoShadowCopies
    | StorePresent(storeId: Guid, sequence: u64, volumeSize: u64, creationTime: u64)
    | SequenceGap(previous: u64, next: u64)
    | StoreNonPersistent(storeId: Guid, attributeFlags: u32)

  function Present(d: StoreDescriptor): Anomaly {
    StorePresent(d.storeId, d.sequence, d.volumeSize, d.creationTime)
  }

  function PresentAll(stores: seq<StoreDescriptor>): (r: seq<Anomaly>)
    ensures |r| == |stores| && forall i | 0 <= i < |stores| :: r[i] == Present(stores[i])
  {
    if stores == [] then [] else PresentAll(stores[..|stores| - 1]) + [Present(stores[|stores| - 1])]
  }

  function Sequences(stores: seq<StoreDescriptor>): (r: seq<u64>)
    ensures |r| == |stores| && forall i | 0 <= i < |stores| :: r[i] == stores[i].sequence
  {
    seq(|stores|, i requires 0 <= i < |stores| => stores[i].sequence)
  }

  /** `sort_unstable`: on numbers, every sorted permutation is this one. */
  function InOrder(s: seq<u64>): seq<u64> {
    SortBy(s, (x: u64) => x)
  }

  /** The neighbours of a list that are more than one apart. */
  function Gaps(s: seq<u64>): seq<Anomaly> {
    if |s| < 2 then []
    else
      var n := |s| - 1;
      Gaps(s[..n]) + if s[n] > SaturatingAdd(s[n - 1], 1) then [SequenceGap(s[n - 1], s[n])] else []
  }

  type InfoOutcome = Result<StoreInfos.StoreInfo, VssError>

  /** What `store_info` answers for each store. */
  function Outcomes(img: Image, stores: seq<StoreDescriptor>): (r: seq<InfoOutcome>)
    ensures |r| == |stores|
  {
    seq(|stores|, i requires 0 <= i < |stores| => StoreInfoOutcome(img, stores, i))
  }

  /** The finding about one store: its information was read and lacks the persistent bit. */
  function NonPersistentOne(d: StoreDescriptor, info: InfoOutcome): seq<Anomaly> {
    if info.Ok? && !info.value.IsPersistent() then [StoreNonPersistent(d.storeId, info.value.attributes)] else []
  }

  function NonPersistent(stores: seq<StoreDescriptor>, infos: seq<InfoOutcome>): seq<Anomaly>
    requires |stores| == |infos|
  {
    if stores == [] then []
    else
      var n := |stores| - 1;
      NonPersistent(stores[..n], infos[..n]) + NonPersistentOne(stores[n], infos[n])
  }

  /** The report on a volume with or without a header, its stores, and what reading their information gave. */
  function Report(header: bool, stores: seq<StoreDescriptor>, infos: seq<InfoOutcome>): seq<Anomaly>
    requires |stores| == |infos|
  {
    if header && stores == [] then [NoShadowCopies]
    else PresentAll(stores) + Gaps(InOrder(Sequences(stores))) + NonPersistent(stores, infos)
  }

  // ---------- What the gap scan finds ----------

  predicate Ascending(s: seq<u64>) {
    forall i, j | 0 <= i < j < |s| :: s[i] <= s[j]
  }

  lemma InOrderAscends(s: seq<u64>)
    ensures Ascending(InOrder(s)) && multiset(InOrder(s)) == multiset(s)
    ensures |InOrder(s)| == |s| && forall x :: x in InOrder(s) <==> x in s
  {
    var t := InOrder(s);
    SortByProperties(s, (x: u64) => x);
    assert |multiset(t)| == |t| && |multiset(s)| == |s|;
    forall x ensures x in t <==> x in s {
      assert x in multiset(t) <==> x in multiset(s);
    }
  }

  predicate GapAt(s: seq<u64>, i: int, g: Anomaly) {
    0 < i < |s| && s[i] > SaturatingAdd(s[i - 1], 1) && g == SequenceGap(s[i - 1], s[i])
  }

  lemma {:induction false} GapsAreNeighbours(s: seq<u64>, g: Anomaly)
    ensures g in Gaps(s) <==> exists i :: GapAt(s, i, g)
  {
    if |s| >= 2 {
      var n := |s| - 1;
      GapsAreNeighbours(s[..n], g);
      if i :| GapAt(s[..n], i, g) {
        assert GapAt(s, i, g);
      }
      if i :| GapAt(s, i, g) {
        assert i < n ==> GapAt(s[..n], i, g);
      }
      assert s[n] > SaturatingAdd(s[n - 1], 1) && g == SequenceGap(s[n - 1], s[n]) <==> GapAt(s, n, g);
    }
  }

  lemma {:induction false} LastIndexOf(s: seq<u64>, p: u64) returns (i: nat)
    requires p in s
    ensures i < |s| && s[i] == p && forall j | i < j < |s| :: s[j] != p
  {
    var n := |s| - 1;
    if s[n] == p {
      i := n;
    } else {
      assert p in s[..n];
      i := LastIndexOf(s[..n], p);
      assert forall j | i < j < n :: s[j] == s[..n][j];
    }
  }

  /** `p` and `n` bracket a hole: both present, more than one apart, nothing present in between. */
  ghost predicate Brackets(s: seq<u64>, p: u64, n: u64) {
    p in s && n in s && n > p + 1 && forall x | x in s :: !(p < x < n)
  }

  lemma NeighboursBracket(t: seq<u64>, i: int, p: u64, n: u64)
    requires Ascending(t) && GapAt(t, i, SequenceGap(p, n))
    ensures Brackets(t, p, n)
  {
    forall x | x in t ensures !(p < x < n) {
      var j :| 0 <= j < |t| && t[j] == x;
      assert j < i - 1 ==> t[j] <= t[i - 1];
      assert j > i ==> t[i] <= t[j];
    }
  }

  lemma BracketsAreNeighbours(t: seq<u64>, p: u64, n: u64) returns (i: int)
    requires Ascending(t) && Brackets(t, p, n)
    ensures GapAt(t, i, SequenceGap(p, n))
  {
    var k := LastIndexOf(t, p);
    var j :| 0 <= j < |t| && t[j] == n;
    assert k < j;
    i := k + 1;
    assert t[i] in t && p <= t[i];
    assert i < j ==> t[i] <= t[j];
  }

  lemma GapsOfAscending(t: seq<u64>, p: u64, n: u64)
    requires Ascending(t)
    ensures SequenceGap(p, n) in Gaps(t) <==> Brackets(t, p, n)
  {
    GapsAreNeighbours(t, SequenceGap(p, n));
    if i :| GapAt(t, i, SequenceGap(p, n)) {
      NeighboursBracket(t, i, p, n);
    }
    if Brackets(t, p, n) {
      var i := BracketsAreNeighbours(t, p, n);
    }
  }

  /** A gap is reported iff its ends bracket a hole in the set of sequence numbers. */
  lemma GapsAreExact(s: seq<u64>, p: u64, n: u64)
    ensures SequenceGap(p, n) in Gaps(InOrder(s)) <==> Brackets(s, p, n)
  {
    InOrderAscends(s);
    GapsOfAscending(InOrder(s), p, n);
  }

  lemma GapsAppend(init: seq<u64>, x: u64)
    requires init != []
    ensures var last := init[|init| - 1];
      Gaps(init + [x]) == Gaps(init) + if x > SaturatingAdd(last, 1) then [SequenceGap(last, x)] else []
  {
    assert (init + [x])[..|init|] == init;
  }

  lemma CountOfAppend<T>(s: seq<T>, x: T, k: T)
    ensures multiset(s + [x])[k] == multiset(s)[k] + if x == k then 1 else 0
  {
  }

  lemma LastGapIsNew(init: seq<u64>, g: Anomaly)
    requires Ascending(init) && init != [] && g.SequenceGap? && g.next > init[|init| - 1]
    ensures g !in Gaps(init)
  {
    GapsAreNeighbours(init, g);
    forall i ensures !GapAt(init, i, g) {
    }
  }

  lemma {:induction false} GapsReportedOnce(t: seq<u64>, g: Anomaly)
    requires Ascending(t)
    ensures multiset(Gaps(t))[g] <= 1
  {
    if |t| >= 2 {
      var n := |t| - 1;
      var last := SequenceGap(t[n - 1], t[n]);
      GapsReportedOnce(t[..n], g);
      GapsAppend(t[..n], t[n]);
      assert t == t[..n] + [t[n]];
      if t[n] > SaturatingAdd(t[n - 1], 1) {
        CountOfAppend(Gaps(t[..n]), last, g);
        if g == last {
          LastGapIsNew(t[..n], g);
        }
      } else {
        assert Gaps(t[..n]) + [] == Gaps(t[..n]);
      }
    }
  }

  /**
   An absent number between the smallest and the largest lies in exactly one gap, and every number
   in a gap is absent.
   */
  lemma GapsPartitionAbsent(s: seq<u64>, k: u64)
    ensures (exists a, b :: a in s && b in s && a < k < b) && k !in s
      <==> exists p: u64, n: u64 :: Brackets(s, p, n) && p < k < n
    ensures forall p: u64, n: u64, p': u64, n': u64 ::
      Brackets(s, p, n) && p < k < n && Brackets(s, p', n') && p' < k < n' ==> p == p' && n == n'
  {
    if a, b :| a in s && b in s && a < k < b && k !in s {
      var p := NearestBelow(s, k, a);
      var n := NearestAbove(s, k, b);
      assert Brackets(s, p, n);
    }
  }

  lemma {:induction false} NearestBelow(s: seq<u64>, k: u64, a: u64) returns (p: u64)
    requires a in s && a < k
    ensures p in s && p < k && forall x | x in s :: x <= p || x >= k
    decreases k - a
  {
    if x :| x in s && a < x < k {
      p := NearestBelow(s, k, x);
    } else {
      p := a;
    }
  }

  lemma {:induction false} NearestAbove(s: seq<u64>, k: u64, b: u64) returns (n: u64)
    requires b in s && k < b
    ensures n in s && k < n && forall x | x in s :: x <= k || x >= n
    decreases b
  {
    if x :| x in s && k < x < b {
      n := NearestAbove(s, k, x);
    } else {
      n := b;
    }
  }

  /** How many numbers the gaps say are missing. */
  function Missing(gaps: seq<Anomaly>): nat {
    if gaps == [] then 0
    else
      var g := gaps[|gaps| - 1];
      Missing(gaps[..|gaps| - 1]) + if g.SequenceGap? && g.next > g.previous then g.next - g.previous - 1 else 0
  }

  lemma MissingAppend(gaps: seq<Anomaly>, g: Anomaly)
    requires g.SequenceGap? && g.next > g.previous
    ensures Missing(gaps + [g]) == Missing(gaps) + (g.next - g.previous - 1)
  {
    assert (gaps + [g])[..|gaps|] == gaps;
  }

  /** The distinct numbers of a list. */
  function Values(s: seq<u64>): set<u64> {
    set x | x in s
  }

  lemma LastRaisesCount(init: seq<u64>, x: u64)
    requires Ascending(init + [x]) && init != []
    ensures |Values(init + [x])| == |Values(init)| + (if x == init[|init| - 1] then 0 else 1)
  {
    assert Values(init + [x]) == Values(init) + {x};
    if x == init[|init| - 1] {
      assert x in init;
      assert Values(init) + {x} == Values(init);
    } else {
      forall j | 0 <= j < |init| ensures init[j] != x {
        assert (init + [x])[j] <= (init + [x])[|init| - 1] <= (init + [x])[|init|];
      }
      assert x !in Values(init);
    }
  }

  lemma {:induction false} MissingOfAscending(t: seq<u64>)
    requires Ascending(t) && t != []
    ensures Missing(Gaps(t)) == t[|t| - 1] - t[0] + 1 - |Values(t)|
  {
    var n := |t| - 1;
    var init := t[..n];
    assert t == init + [t[n]];
    if n == 0 {
      assert Values(t) == {t[0]};
    } else {
      MissingOfAscending(init);
      LastRaisesCount(init, t[n]);
      GapsAppend(init, t[n]);
      if t[n] > SaturatingAdd(t[n - 1], 1) {
        MissingAppend(Gaps(init), SequenceGap(t[n - 1], t[n]));
      } else {
        assert Gaps(init) + [] == Gaps(init);
      }
    }
  }

  /** The gaps account for every absent number: together they miss max - min + 1 minus the distinct numbers present. */
  lemma GapsCountAbsent(s: seq<u64>, least: u64, greatest: u64)
    requires least in s && greatest in s && forall x | x in s :: least <= x <= greatest
    ensures Missing(Gaps(InOrder(s))) == greatest - least + 1 - |Values(s)|
  {
    var t := InOrder(s);
    InOrderAscends(s);
    MissingOfAscending(t);
    assert Values(t) == Values(s);
    assert t[0] in t && t[|t| - 1] in t;
    var i :| 0 <= i < |t| && t[i] == least;
    var j :| 0 <= j < |t| && t[j] == greatest;
  }

  function Repeat(k: u64, n: nat): seq<u64> {
    if n == 0 then [] else Repeat(k, n - 1) + [k]
  }

  lemma {:induction false} WithKeyOfNumbers(s: seq<u64>, key: u64 -> u64, k: u64)
    requires forall x: u64 :: key(x) == x
    ensures WithKey(s, key, k) == Repeat(k, multiset(s)[k])
  {
    if s != [] {
      var init, last := s[..|s| - 1], s[|s| - 1];
      WithKeyOfNumbers(init, key, k);
      CountOfAppend(init, last, k);
      assert s == init + [last];
    }
  }

  /** The report does not depend on the order in which the catalog lists the stores. */
  lemma GapsIgnoreStoreOrder(a: seq<u64>, b: seq<u64>)
    requires multiset(a) == multiset(b)
    ensures Gaps(InOrder(a)) == Gaps(InOrder(b))
  {
    var key := (x: u64) => x;
    SortByProperties(a, key);
    SortByProperties(b, key);
    forall k: u64 ensures WithKey(InOrder(a), key, k) == WithKey(InOrder(b), key, k) {
      WithKeyOfNumbers(InOrder(a), key, k);
      WithKeyOfNumbers(InOrder(b), key, k);
    }
    SortedListIsUnique(InOrder(a), InOrder(b), key);
  }

  // ---------- What the report says ----------

  predicate NonPersistentAt(stores: seq<StoreDescriptor>, infos: seq<InfoOutcome>, i: nat, a: Anomaly) {
    i < |stores| && i < |infos| && a in NonPersistentOne(stores[i], infos[i])
  }

  lemma {:induction false} NonPersistentMembers(stores: seq<StoreDescriptor>, infos: seq<InfoOutcome>, a: Anomaly)
    requires |stores| == |infos|
    ensures a in NonPersistent(stores, infos) <==> exists i :: NonPersistentAt(stores, infos, i, a)
  {
    if stores != [] {
      var n := |stores| - 1;
      NonPersistentMembers(stores[..n], infos[..n], a);
      forall i: nat ensures NonPersistentAt(stores, infos, i, a)
        <==> NonPersistentAt(stores[..n], infos[..n], i, a) || (i == n && a in NonPersistentOne(stores[n], infos[n]))
      {
      }
      assert NonPersistentAt(stores, infos, n, a) <==> a in NonPersistentOne(stores[n], infos[n]);
    }
  }

  lemma {:induction false} GapsHoldGapsOnly(s: seq<u64>)
    ensures forall a | a in Gaps(s) :: a.SequenceGap?
  {
    if |s| >= 2 {
      GapsHoldGapsOnly(s[..|s| - 1]);
    }
  }

  predicate PresentAt(stores: seq<StoreDescriptor>, i: nat, a: Anomaly) {
    i < |stores| && a == Present(stores[i])
  }

  /** What a volume calls for. */
  ghost predicate CalledFor(header: bool, stores: seq<StoreDescriptor>, infos: seq<InfoOutcome>, a: Anomaly)
    requires |stores| == |infos|
  {
    match a
    case NoShadowCopies => header && stores == []
    case StorePresent(_, _, _, _) => exists i :: PresentAt(stores, i, a)
    case SequenceGap(p, n) => Brackets(Sequences(stores), p, n)
    case StoreNonPersistent(_, _) => exists i :: NonPersistentAt(stores, infos, i, a)
  }

  lemma PartsAreExact(stores: seq<StoreDescriptor>, infos: seq<InfoOutcome>, a: Anomaly)
    requires |stores| == |infos|
    ensures a in PresentAll(stores) <==> exists i :: PresentAt(stores, i, a)
    ensures a in Gaps(InOrder(Sequences(stores))) <==> a.SequenceGap? && Brackets(Sequences(stores), a.previous, a.next)
    ensures a in NonPersistent(stores, infos) <==> exists i :: NonPersistentAt(stores, infos, i, a)
  {
    if i :| 0 <= i < |PresentAll(stores)| && PresentAll(stores)[i] == a {
      assert PresentAt(stores, i, a);
    }
    GapsHoldGapsOnly(InOrder(Sequences(stores)));
    NonPersistentMembers(stores, infos, a);
    if a.SequenceGap? {
      GapsAreExact(Sequences(stores), a.previous, a.next);
    }
  }

  lemma NoStoresCallForNothingElse(header: bool, infos: seq<InfoOutcome>, a: Anomaly)
    requires infos == []
    ensures CalledFor(header, [], infos, a) <==> a == NoShadowCopies && header
  {
    assert Sequences([]) == [];
  }

  /** Each anomaly is reported exactly when the volume calls for it. */
  lemma ReportIsExact(header: bool, stores: seq<StoreDescriptor>, infos: seq<InfoOutcome>, a: Anomaly)
    requires |stores| == |infos|
    ensures a in Report(header, stores, infos) <==> CalledFor(header, stores, infos, a)
  {
    if header && stores == [] {
      NoStoresCallForNothingElse(header, infos, a);
    } else {
      var present, gaps, volatile := PresentAll(stores), Gaps(InOrder(Sequences(stores))), NonPersistent(stores, infos);
      PartsAreExact(stores, infos, a);
      PartsHoldOwnKind(stores, infos);
      InOwnPart(present, gaps, volatile, a);
    }
  }

  /** An anomaly is in the report iff it is in the part for its kind. */
  lemma InOwnPart(p: seq<Anomaly>, g: seq<Anomaly>, n: seq<Anomaly>, a: Anomaly)
    requires forall x | x in p :: x.StorePresent?
    requires forall x | x in g :: x.SequenceGap?
    requires forall x | x in n :: x.StoreNonPersistent?
    ensures a in p + g + n <==> match a
      case NoShadowCopies => false
      case StorePresent(_, _, _, _) => a in p
      case SequenceGap(_, _) => a in g
      case StoreNonPersistent(_, _) => a in n
  {
    InParts(p, g, n, a);
  }

  // ---------- The report, in the fields of the stores on disk ----------

  ghost predicate SaysPresent(stores: seq<StoreDescriptor>, r: seq<Anomaly>) {
    forall g: Guid, s: u64, v: u64, t: u64 :: StorePresent(g, s, v, t) in r <==>
      (exists i | 0 <= i < |stores| ::
        stores[i].storeId == g && stores[i].sequence == s && stores[i].volumeSize == v && stores[i].creationTime == t)
  }

  ghost predicate SaysGaps(stores: seq<StoreDescriptor>, r: seq<Anomaly>) {
    forall p: u64, n: u64 :: SequenceGap(p, n) in r <==>
      && (exists i | 0 <= i < |stores| :: stores[i].sequence == p)
      && (exists i | 0 <= i < |stores| :: stores[i].sequence == n)
      && n > p + 1 && (forall i | 0 <= i < |stores| :: !(p < stores[i].sequence < n))
  }

  ghost predicate SaysNonPersistent(stores: seq<StoreDescriptor>, infos: seq<InfoOutcome>, r: seq<Anomaly>)
    requires |stores| == |infos|
  {
    forall g: Guid, f: u32 :: StoreNonPersistent(g, f) in r <==>
      (exists i | 0 <= i < |stores| ::
        stores[i].storeId == g && infos[i].Ok? && infos[i].value.attributes == f && f % 2 == 0)
  }

  /**
   What a report says of a volume: an identifier with no store behind it, every store with its four
   fields, every gap between the sequence numbers, and every store whose attributes can be read and
   are even. It says nothing else.
   */
  ghost predicate SaysExactly(img: Image, r: seq<Anomaly>) {
    var stores := StoresIn(img);
    && (NoShadowCopies in r <==> HeaderOnDisk(img) && |stores| == 0)
    && SaysPresent(stores, r) && SaysGaps(stores, r)
    && SaysNonPersistent(stores, seq(|stores|, i requires 0 <= i < |stores| => StoreInfoOutcome(img, stores, i)), r)
  }

  lemma ReportSaysPresent(header: bool, stores: seq<StoreDescriptor>, infos: seq<InfoOutcome>)
    requires |stores| == |infos|
    ensures SaysPresent(stores, Report(header, stores, infos))
  {
    forall g: Guid, s: u64, v: u64, t: u64
      ensures StorePresent(g, s, v, t) in Report(header, stores, infos) <==> exists i | 0 <= i < |stores| ::
        stores[i].storeId == g && stores[i].sequence == s && stores[i].volumeSize == v && stores[i].creationTime == t
    {
      var a := StorePresent(g, s, v, t);
      ReportIsExact(header, stores, infos, a);
      if i :| 0 <= i < |stores| && stores[i].storeId == g && stores[i].sequence == s
              && stores[i].volumeSize == v && stores[i].creationTime == t {
        assert PresentAt(stores, i, a);
      }
    }
  }

  lemma InSequences(stores: seq<StoreDescriptor>, x: u64)
    ensures x in Sequences(stores) <==> exists i | 0 <= i < |stores| :: stores[i].sequence == x
  {
    if i :| 0 <= i < |stores| && stores[i].sequence == x {
      assert Sequences(stores)[i] == x;
    }
  }

  lemma ReportSaysGap(header: bool, stores: seq<StoreDescriptor>, infos: seq<InfoOutcome>, p: u64, n: u64)
    requires |stores| == |infos|
    ensures SequenceGap(p, n) in Report(header, stores, infos) <==>
      && (exists i | 0 <= i < |stores| :: stores[i].sequence == p)
      && (exists i | 0 <= i < |stores| :: stores[i].sequence == n)
      && n > p + 1 && (forall i | 0 <= i < |stores| :: !(p < stores[i].sequence < n))
  {
    var s := Sequences(stores);
    ReportIsExact(header, stores, infos, SequenceGap(p, n));
    InSequences(stores, p);
    InSequences(stores, n);
    assert (forall x | x in s :: !(p < x < n)) <==> forall i | 0 <= i < |stores| :: !(p < stores[i].sequence < n) by {
      forall i | 0 <= i < |stores| ensures stores[i].sequence in s {
        assert s[i] in s;
      }
    }
  }

  lemma ReportSaysGaps(header: bool, stores: seq<StoreDescriptor>, infos: seq<InfoOutcome>)
    requires |stores| == |infos|
    ensures SaysGaps(stores, Report(header, stores, infos))
  {
    forall p: u64, n: u64 ensures SequenceGap(p, n) in Report(header, stores, infos) <==>
      && (exists i | 0 <= i < |stores| :: stores[i].sequence == p)
      && (exists i | 0 <= i < |stores| :: stores[i].sequence == n)
      && n > p + 1 && (forall i | 0 <= i < |stores| :: !(p < stores[i].sequence < n))
    {
      ReportSaysGap(header, stores, infos, p, n);
    }
  }

  lemma ReportSaysNonPersistent(header: bool, stores: seq<StoreDescriptor>, infos: seq<InfoOutcome>)
    requires |stores| == |infos|
    ensures SaysNonPersistent(stores, infos, Report(header, stores, infos))
  {
    forall g: Guid, f: u32
      ensures StoreNonPersistent(g, f) in Report(header, stores, infos) <==> exists i | 0 <= i < |stores| ::
        stores[i].storeId == g && infos[i].Ok? && infos[i].value.attributes == f && f % 2 == 0
    {
      var a := StoreNonPersistent(g, f);
      ReportIsExact(header, stores, infos, a);
      forall i: nat ensures NonPersistentAt(stores, infos, i, a) <==>
        i < |stores| && stores[i].storeId == g && infos[i].Ok? && infos[i].value.attributes == f && f % 2 == 0
      {
        if i < |stores| && infos[i].Ok? {
          PersistentIsOdd(infos[i].value);
        }
      }
    }
  }

  // ---------- The order of the report ----------

  /** The gaps come in rising order, so none comes twice. */
  lemma {:induction false} GapsRise(t: seq<u64>)
    requires Ascending(t)
    ensures forall g | g in Gaps(t) :: g.SequenceGap? && g.previous < g.next <= t[|t| - 1]
    ensures forall i, j | 0 <= i < j < |Gaps(t)| ::
      Gaps(t)[i].SequenceGap? && Gaps(t)[j].SequenceGap? && Gaps(t)[i].previous < Gaps(t)[j].previous
  {
    if |t| >= 2 {
      var n := |t| - 1;
      GapsRise(t[..n]);
      GapsAppend(t[..n], t[n]);
      assert t == t[..n] + [t[n]];
      var before := Gaps(t[..n]);
      assert forall i | 0 <= i < |before| :: before[i] in before;
    }
  }

  predicate Volatile(infos: seq<InfoOutcome>, i: nat) {
    i < |infos| && infos[i].Ok? && infos[i].value.attributes % 2 == 0
  }

  predicate Rising(s: seq<nat>) {
    forall i, j | 0 <= i < j < |s| :: s[i] < s[j]
  }

  /** `a` reports store `i`, whose attributes can be read and are even. */
  predicate ReportsStore(stores: seq<StoreDescriptor>, infos: seq<InfoOutcome>, i: nat, a: Anomaly) {
    && i < |stores| && Volatile(infos, i)
    && a == StoreNonPersistent(stores[i].storeId, infos[i].value.attributes)
  }

  /** `r` reports the stores at `picks`, in this order. */
  predicate ReportsAt(stores: seq<StoreDescriptor>, infos: seq<InfoOutcome>, picks: seq<nat>, r: seq<Anomaly>) {
    |r| == |picks| && forall k | 0 <= k < |picks| :: ReportsStore(stores, infos, picks[k], r[k])
  }

  /** `picks` are the stores whose attributes can be read and are even, in store order. */
  predicate Picks(infos: seq<InfoOutcome>, picks: seq<nat>) {
    Rising(picks) && (forall k | 0 <= k < |picks| :: Volatile(infos, picks[k]))
    && (forall i | 0 <= i < |infos| && Volatile(infos, i) :: i in picks)
  }

  lemma OneMorePick(infos: seq<InfoOutcome>, before: seq<nat>)
    requires infos != [] && Picks(infos[..|infos| - 1], before)
    ensures var n := |infos| - 1; Picks(infos, before + if Volatile(infos, n) then [n] else [])
  {
    var n := |infos| - 1;
    var picks := before + if Volatile(infos, n) then [n] else [];
    forall k | 0 <= k < |before| ensures before[k] < n && Volatile(infos, before[k]) {
      assert Volatile(infos[..n], before[k]);
    }
    forall i | 0 <= i < |infos| && Volatile(infos, i) ensures i in picks {
      if i < n {
        assert Volatile(infos[..n], i);
      } else {
        assert picks[|before|] == n;
      }
    }
  }

  lemma ReportsMore(stores: seq<StoreDescriptor>, infos: seq<InfoOutcome>, picks: seq<nat>, r: seq<Anomaly>)
    requires stores != [] && |stores| == |infos|
    requires ReportsAt(stores[..|stores| - 1], infos[..|infos| - 1], picks, r)
    ensures ReportsAt(stores, infos, picks, r)
  {
    forall k | 0 <= k < |picks| ensures ReportsStore(stores, infos, picks[k], r[k]) {
      assert ReportsStore(stores[..|stores| - 1], infos[..|infos| - 1], picks[k], r[k]);
    }
  }

  /** The non-persistent stores come in store order, each once. */
  lemma {:induction false} NonPersistentInOrder(stores: seq<StoreDescriptor>, infos: seq<InfoOutcome>)
    returns (picks: seq<nat>)
    requires |stores| == |infos|
    ensures Picks(infos, picks) && ReportsAt(stores, infos, picks, NonPersistent(stores, infos))
  {
    picks := [];
    if stores != [] {
      var n := |stores| - 1;
      var before := NonPersistentInOrder(stores[..n], infos[..n]);
      if infos[n].Ok? {
        PersistentIsOdd(infos[n].value);
      }
      OneMorePick(infos, before);
      ReportsMore(stores, infos, before, NonPersistent(stores[..n], infos[..n]));
      picks := before + if Volatile(infos, n) then [n] else [];
    }
  }

  /** Every store comes first, in store order, then the gaps, rising, then the non-persistent stores, in store order. */
  lemma ReportInOrder(header: bool, stores: seq<StoreDescriptor>, infos: seq<InfoOutcome>)
    returns (present: seq<Anomaly>, gaps: seq<Anomaly>, volatile: seq<Anomaly>, picks: seq<nat>)
    requires |stores| == |infos| && !(header && stores == [])
    ensures Report(header, stores, infos) == present + gaps + volatile
    ensures |present| == |stores| && (forall i | 0 <= i < |stores| ::
      present[i] == StorePresent(stores[i].storeId, stores[i].sequence, stores[i].volumeSize, stores[i].creationTime))
    ensures forall i, j | 0 <= i < j < |gaps| ::
      gaps[i].SequenceGap? && gaps[j].SequenceGap? && gaps[i].previous < gaps[j].previous
    ensures Picks(infos, picks) && ReportsAt(stores, infos, picks, volatile)
  {
    present, gaps, volatile := PresentAll(stores), Gaps(InOrder(Sequences(stores))), NonPersistent(stores, infos);
    InOrderAscends(Sequences(stores));
    GapsRise(InOrder(Sequences(stores)));
    picks := NonPersistentInOrder(stores, infos);
  }

  lemma ReportSaysExactly(img: Image)
    ensures SaysExactly(img, Report(HasVssHeader(img), StoresIn(img), Outcomes(img, StoresIn(img))))
  {
    var header, stores := HasVssHeader(img), StoresIn(img);
    var infos := Outcomes(img, stores);
    HeaderInNumbers(img);
    ReportIsExact(header, stores, infos, NoShadowCopies);
    ReportSaysPresent(header, stores, infos);
    ReportSaysGaps(header, stores, infos);
    ReportSaysNonPersistent(header, stores, infos);
  }

  lemma PartsHoldOwnKind(stores: seq<StoreDescriptor>, infos: seq<InfoOutcome>)
    requires |stores| == |infos|
    ensures forall x | x in PresentAll(stores) :: x.StorePresent?
    ensures forall x | x in Gaps(InOrder(Sequences(stores))) :: x.SequenceGap?
    ensures forall x | x in NonPersistent(stores, infos) :: x.StoreNonPersistent?
  {
    GapsHoldGapsOnly(InOrder(Sequences(stores)));
    NonPersistentHoldsOwnKind(stores, infos);
  }

  lemma InParts(p: seq<Anomaly>, g: seq<Anomaly>, n: seq<Anomaly>, a: Anomaly)
    ensures a in p + g + n <==> a in p || a in g || a in n
    ensures a !in p && a !in n ==> multiset(p + g + n)[a] == multiset(g)[a]
  {
  }

  lemma {:induction false} NonPersistentHoldsOwnKind(stores: seq<StoreDescriptor>, infos: seq<InfoOutcome>)
    requires |stores| == |infos|
    ensures forall a | a in NonPersistent(stores, infos) :: a.StoreNonPersistent?
  {
    if stores != [] {
      NonPersistentHoldsOwnKind(stores[..|stores| - 1], infos[..|stores| - 1]);
    }
  }

  lemma OnceInParts(p: seq<Anomaly>, g: seq<Anomaly>, n: seq<Anomaly>, a: Anomaly)
    requires a.SequenceGap? && multiset(g)[a] <= 1
    requires forall x | x in p :: x.StorePresent?
    requires forall x | x in n :: x.StoreNonPersistent?
    ensures multiset(p + g + n)[a] <= 1
  {
    InParts(p, g, n, a);
  }

  /** No gap is reported twice. */
  lemma ReportHasEachGapOnce(header: bool, stores: seq<StoreDescriptor>, infos: seq<InfoOutcome>, a: Anomaly)
    requires |stores| == |infos| && a.SequenceGap?
    ensures multiset(Report(header, stores, infos))[a] <= 1
  {
    InOrderAscends(Sequences(stores));
    GapsReportedOnce(InOrder(Sequences(stores)), a);
    PartsHoldOwnKind(stores, infos);
    OnceInParts(PresentAll(stores), Gaps(InOrder(Sequences(stores))), NonPersistent(stores, infos), a);
  }

  // ---------- audit ----------

  method Audit(volume: VssVolume) returns (out: seq<Anomaly>)
    requires volume.Opened()
    modifies volume.reader
    ensures var img := volume.reader.data; var stores := StoresIn(img);
      out == Report(HasVssHeader(img), stores, Outcomes(img, stores))
    ensures SaysExactly(volume.reader.data, out)
  {
    ReportSaysExactly(volume.reader.data);
    out := Findings(volume);
  }

  method Findings(volume: VssVolume) returns (out: seq<Anomaly>)
    requires volume.Opened()
    modifies volume.reader
    ensures var img := volume.reader.data; var stores := StoresIn(img);
      out == Report(HasVssHeader(img), stores, Outcomes(img, stores))
  {
    var descriptors := volume.stores;
    if volume.hasVssHeader && descriptors == [] {
      return [NoShadowCopies];
    }
    out := ListPresent(descriptors);
    var sequences := InOrder(Sequences(descriptors));
    out := AppendGaps(out, sequences);
    out := AppendNonPersistent(out, volume);
  }

  method ListPresent(descriptors: seq<StoreDescriptor>) returns (out: seq<Anomaly>)
    ensures out == PresentAll(descriptors)
  {
    out := [];
    for i := 0 to |descriptors|
      invariant out == PresentAll(descriptors[..i])
    {
      out := out + [Present(descriptors[i])];
      assert descriptors[..i + 1][..i] == descriptors[..i];
    }
    assert descriptors[..|descriptors|] == descriptors;
  }

  lemma NonPersistentStep(stores: seq<StoreDescriptor>, infos: seq<InfoOutcome>, k: nat, found: seq<Anomaly>)
    requires k < |stores| == |infos|
    ensures found + NonPersistent(stores[..k + 1], infos[..k + 1])
         == found + NonPersistent(stores[..k], infos[..k]) + NonPersistentOne(stores[k], infos[k])
  {
    assert stores[..k + 1][..k] == stores[..k] && infos[..k + 1][..k] == infos[..k];
  }

  method AppendOne(out: seq<Anomaly>, d: StoreDescriptor, info: InfoOutcome) returns (r: seq<Anomaly>)
    ensures r == out + NonPersistentOne(d, info)
  {
    r := out;
    if info.Ok? && !info.value.IsPersistent() {
      r := r + [StoreNonPersistent(d.storeId, info.value.attributes)];
    }
  }

  method InfoOf(volume: VssVolume, index: nat) returns (info: InfoOutcome)
    requires volume.Opened() && index < |volume.stores|
    modifies volume.reader
    ensures info == Outcomes(volume.reader.data, volume.stores)[index]
  {
    info := volume.StoreInfo(index);
  }

  /** Reads each store's information; a store whose information cannot be read is skipped. */
  method AppendNonPersistent(found: seq<Anomaly>, volume: VssVolume) returns (out: seq<Anomaly>)
    requires volume.Opened()
    modifies volume.reader
    ensures out == found + NonPersistent(volume.stores, Outcomes(volume.reader.data, volume.stores))
  {
    var stores := volume.stores;
    ghost var infos := Outcomes(volume.reader.data, stores);
    out := found;
    for index := 0 to |stores|
      invariant out == found + NonPersistent(stores[..index], infos[..index])
    {
      var info := InfoOf(volume, index);
      NonPersistentStep(stores, infos, index, found);
      out := AppendOne(out, stores[index], info);
    }
    assert stores[..|stores|] == stores && infos[..|stores|] == infos;
  }

  /** The scan over adjacent sorted sequence numbers. */
  method AppendGaps(found: seq<Anomaly>, sequences: seq<u64>) returns (out: seq<Anomaly>)
    ensures out == found + Gaps(sequences)
  {
    out := found;
    if |sequences| == 0 {
      return;
    }
    for i := 1 to |sequences|
      invariant out == found + Gaps(sequences[..i])
    {
      var previous, next := sequences[i - 1], sequences[i];
      if next > SaturatingAdd(previous, 1) {
        out := out + [SequenceGap(previous, next)];
      }
      assert sequences[..i + 1][..i] == sequences[..i];
    }
    assert sequences[..|sequences|] == sequences;
  }
}
