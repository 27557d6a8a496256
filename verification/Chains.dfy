/**
 The three on-disk linked lists: the catalog, the diff area and the store bitmap. Each
 16384-byte block names the next one at byte 40 of its header. The links come from an
 untrusted image, so a chain may loop, dangle or run into a block of another type; the walk
 below is what all three loops compute, and the lemmas say what that is.
 */
module Chains {
  import opened Bytes
  import opened Descriptors

  const VSS_IDENTIFIER: Guid :=
    [0x6b, 0x87, 0x08, 0x38, 0x76, 0xc1, 0x48, 0x4e, 0xb7, 0xae, 0x04, 0x04, 0x6e, 0x6c, 0xc7, 0x52]

  const MAX_CATALOG_BLOCKS: nat := 4096
  const MAX_STORE_BLOCKS: nat := 0x10_0000

  datatype ChainKind = CatalogChain | DiffAreaChain | BitmapChain

  /** Only the catalog walk looks at the identifier; the store walks check the record type alone. */
  predicate Accepts(kind: ChainKind, block: Block) {
    match kind
    case CatalogChain => ReadGuid(block, 0) == VSS_IDENTIFIER && LeU32(block, 20) == 0x02
    case DiffAreaChain => LeU32(block, 20) == 0x03
    case BitmapChain => LeU32(block, 20) == 0x06
  }

  /** Whether the whole 16384-byte block at `o` lies in the volume. */
  predicate InVolume(size: nat, o: nat) {
    o + BLOCK_SIZE <= size
  }

  function BlockAt(img: Image, o: nat): Block
    requires InVolume(|img|, o)
  {
    img[o..o + BLOCK_SIZE]
  }

  predicate Usable(img: Image, kind: ChainKind, o: u64) {
    o != 0 && InVolume(|img|, o) && Accepts(kind, BlockAt(img, o))
  }

  function NextOf(img: Image, o: u64): u64
    requires InVolume(|img|, o)
  {
    LeU64(BlockAt(img, o), 40)
  }

  /** The blocks the walk processes from `next` on, having seen `visited`, at most `cap` of them. */
  function Walk(img: Image, kind: ChainKind, next: u64, visited: set<u64>, cap: nat): seq<u64>
    decreases cap
  {
    if cap == 0 || next in visited || !Usable(img, kind, next) then []
    else [next] + Walk(img, kind, NextOf(img, next), visited + {next}, cap - 1)
  }

  function Cap(kind: ChainKind): nat {
    if kind.CatalogChain? then MAX_CATALOG_BLOCKS else MAX_STORE_BLOCKS
  }

  /** The walk from the head of a chain. */
  function Visits(img: Image, kind: ChainKind, first: u64): seq<u64> {
    Walk(img, kind, first, {}, Cap(kind))
  }

  /** `rest` is what the walk has left to do. */
  ghost predicate IsRest(
    img: Image, kind: ChainKind, next: u64, visited: set<u64>, left: nat, rest: seq<u64>)
  {
    rest == Walk(img, kind, next, visited, left)
  }

  /** A chain loop has processed `chain`; what is left to do completes the walk. */
  ghost predicate Pending(
    img: Image, kind: ChainKind, first: u64, chain: seq<u64>, next: u64, visited: set<u64>, left: nat)
  {
    forall rest | IsRest(img, kind, next, visited, left, rest) :: chain + rest == Visits(img, kind, first)
  }

  lemma PendingStart(img: Image, kind: ChainKind, first: u64)
    ensures Pending(img, kind, first, [], first, {}, Cap(kind))
  {
  }

  lemma PendingStops(
    img: Image, kind: ChainKind, first: u64, chain: seq<u64>, next: u64, visited: set<u64>, left: nat)
    requires Pending(img, kind, first, chain, next, visited, left)
    requires left == 0 || next in visited || !Usable(img, kind, next)
    ensures chain == Visits(img, kind, first)
  {
    assert IsRest(img, kind, next, visited, left, []);
    assert chain + [] == chain;
  }

  lemma PendingGoesOn(
    img: Image, kind: ChainKind, first: u64, chain: seq<u64>, next: u64, visited: set<u64>, left: nat)
    requires Pending(img, kind, first, chain, next, visited, left)
    requires left > 0 && next !in visited && Usable(img, kind, next)
    ensures Pending(img, kind, first, chain + [next], NextOf(img, next), visited + {next}, left - 1)
  {
    var rest := Walk(img, kind, NextOf(img, next), visited + {next}, left - 1);
    assert IsRest(img, kind, next, visited, left, [next] + rest);
    Reassociate(chain, next, rest);
  }

  lemma Reassociate<T>(s: seq<T>, x: T, rest: seq<T>)
    ensures s + ([x] + rest) == (s + [x]) + rest
  {
  }

  /** One turn of a chain loop: it ends with the whole walk behind it, or processes one more block. */
  lemma PendingStep(
    img: Image, kind: ChainKind, first: u64, chain: seq<u64>, next: u64, visited: set<u64>, left: nat)
    requires Pending(img, kind, first, chain, next, visited, left)
    ensures left == 0 || next in visited || !Usable(img, kind, next) ==> chain == Visits(img, kind, first)
    ensures left > 0 && next !in visited && Usable(img, kind, next) ==>
      && Pending(img, kind, first, chain + [next], NextOf(img, next), visited + {next}, left - 1)
      && Unvisited(|img|, visited + {next}) < Unvisited(|img|, visited)
  {
    if left == 0 || next in visited || !Usable(img, kind, next) {
      PendingStops(img, kind, first, chain, next, visited, left);
    } else {
      PendingGoesOn(img, kind, first, chain, next, visited, left);
      FewerMissing(|img| - BLOCK_SIZE, visited, next);
    }
  }

  // ---------- What the loops decrease ----------

  /** How many of 1, ..., n are not in `visited`. */
  ghost function Missing(n: nat, visited: set<u64>): nat {
    if n == 0 then 0 else Missing(n - 1, visited) + if n in visited then 0 else 1
  }

  /**
   How many offsets at which a block fits are not yet visited, aligned or not: the measure of all
   three loops, which owes nothing to their caps.
   */
  ghost function Unvisited(size: nat, visited: set<u64>): nat {
    if size < BLOCK_SIZE then 0 else Missing(size - BLOCK_SIZE, visited)
  }

  lemma {:induction false} FewerMissing(n: nat, visited: set<u64>, o: u64)
    requires o != 0 && o !in visited
    ensures Missing(n, visited + {o}) == Missing(n, visited) - if o <= n then 1 else 0
  {
    if n > 0 {
      FewerMissing(n - 1, visited, o);
    }
  }

  lemma {:induction false} AllMissing(n: nat)
    ensures Missing(n, {}) == n
  {
    if n > 0 {
      AllMissing(n - 1);
    }
  }

  // ---------- What a path through the links is ----------

  /** `s` follows the links from `first`, through usable blocks only. It may repeat a block. */
  predicate IsPath(img: Image, kind: ChainKind, first: u64, s: seq<u64>) {
    && (forall i | 0 <= i < |s| :: Usable(img, kind, s[i]))
    && (s != [] ==> s[0] == first)
    && (forall i | 0 < i < |s| :: s[i] == NextOf(img, s[i - 1]))
  }

  predicate Distinct<T(==)>(s: seq<T>) {
    forall i, j | 0 <= i < j < |s| :: s[i] != s[j]
  }

  lemma PathTail(img: Image, kind: ChainKind, first: u64, s: seq<u64>)
    requires IsPath(img, kind, first, s) && s != []
    ensures IsPath(img, kind, NextOf(img, first), s[1..])
  {
    forall i | 0 < i < |s[1..]| ensures s[1..][i] == NextOf(img, s[1..][i - 1]) {
      assert s[i + 1] == NextOf(img, s[i]);
    }
  }

  lemma PathCons(img: Image, kind: ChainKind, first: u64, s: seq<u64>)
    requires Usable(img, kind, first) && IsPath(img, kind, NextOf(img, first), s)
    ensures IsPath(img, kind, first, [first] + s)
  {
    var t := [first] + s;
    forall i | 0 < i < |t| ensures t[i] == NextOf(img, t[i - 1]) {
      if i > 1 {
        assert s[i - 1] == NextOf(img, s[i - 2]);
      }
    }
  }

  // ---------- The walk is the longest path without a repeat ----------

  lemma {:induction false} WalkIsDistinctPath(img: Image, kind: ChainKind, next: u64, visited: set<u64>, cap: nat)
    ensures var w := Walk(img, kind, next, visited, cap);
      && IsPath(img, kind, next, w) && Distinct(w) && |w| <= cap
      && (forall o | o in w :: o !in visited)
    decreases cap
  {
    var w := Walk(img, kind, next, visited, cap);
    if w != [] {
      var t := Walk(img, kind, NextOf(img, next), visited + {next}, cap - 1);
      WalkIsDistinctPath(img, kind, NextOf(img, next), visited + {next}, cap - 1);
      PathCons(img, kind, next, t);
      assert forall i | 0 <= i < |t| :: t[i] in t;
    }
  }

  lemma {:induction false} WalkExtendsEveryDistinctPath(
    img: Image, kind: ChainKind, next: u64, visited: set<u64>, cap: nat, s: seq<u64>)
    requires IsPath(img, kind, next, s) && Distinct(s) && |s| <= cap
    requires forall o | o in s :: o !in visited
    ensures s <= Walk(img, kind, next, visited, cap)
    decreases cap
  {
    if s != [] {
      assert s[0] in s;
      PathTail(img, kind, next, s);
      forall o | o in s[1..] ensures o !in visited + {next} {
        var i :| 0 <= i < |s[1..]| && s[1..][i] == o;
        assert s[i + 1] in s && s[0] != s[i + 1];
      }
      WalkExtendsEveryDistinctPath(img, kind, NextOf(img, next), visited + {next}, cap - 1, s[1..]);
      assert s == [next] + s[1..];
    }
  }

  /**
   The walk processes exactly the longest prefix of first, next(first), next(next(first)), ...
   whose blocks are usable and pairwise distinct, up to the cap: it is such a path, and any
   other such path is a prefix of it.
   */
  lemma WalkIsLongestDistinctPath(img: Image, kind: ChainKind, first: u64, cap: nat, s: seq<u64>)
    ensures var w := Walk(img, kind, first, {}, cap);
      (IsPath(img, kind, first, s) && Distinct(s) && |s| <= cap) <==> s <= w
  {
    var w := Walk(img, kind, first, {}, cap);
    WalkIsDistinctPath(img, kind, first, {}, cap);
    if IsPath(img, kind, first, s) && Distinct(s) && |s| <= cap {
      WalkExtendsEveryDistinctPath(img, kind, first, {}, cap, s);
    }
    if s <= w {
      assert forall i | 0 <= i < |s| :: s[i] == w[i];
    }
  }

  // ---------- When the walk finds everything reachable ----------

  function Continuation(img: Image, next: u64, w: seq<u64>): u64
    requires w != [] ==> InVolume(|img|, w[|w| - 1])
  {
    if w == [] then next else NextOf(img, w[|w| - 1])
  }

  /** Where the walk stops, there is nothing new to go on to: the cap does not bind. */
  predicate Ends(img: Image, kind: ChainKind, next: u64, w: seq<u64>)
    requires w != [] ==> InVolume(|img|, w[|w| - 1])
  {
    var c := Continuation(img, next, w);
    !Usable(img, kind, c) || c in w
  }

  lemma {:induction false} WalkStopsForAReason(img: Image, kind: ChainKind, next: u64, visited: set<u64>, cap: nat)
    requires |Walk(img, kind, next, visited, cap)| < cap
    ensures var w := Walk(img, kind, next, visited, cap);
      && (w != [] ==> InVolume(|img|, w[|w| - 1]))
      && var c := Continuation(img, next, w);
         !Usable(img, kind, c) || c in visited || c in w
    decreases cap
  {
    if Walk(img, kind, next, visited, cap) != [] {
      WalkStopsForAReason(img, kind, NextOf(img, next), visited + {next}, cap - 1);
    }
  }

  predicate Within(p: seq<u64>, w: seq<u64>) {
    forall o | o in p :: o in w
  }

  lemma {:induction false} PathStaysWithin(img: Image, kind: ChainKind, first: u64, w: seq<u64>, p: seq<u64>)
    requires IsPath(img, kind, first, w) && Ends(img, kind, first, w) && IsPath(img, kind, first, p)
    ensures Within(p, w)
    decreases |p|
  {
    if p != [] {
      var n := |p| - 1;
      var init := p[..n];
      assert forall i | 0 <= i < n :: init[i] == p[i];
      PathStaysWithin(img, kind, first, w, init);
      assert p[n] in w by {
        if n > 0 {
          assert init[n - 1] in init;
          var k :| 0 <= k < |w| && w[k] == p[n - 1];
          assert p[n] == NextOf(img, w[k]);
          if k + 1 < |w| {
            assert w[k + 1] == NextOf(img, w[k]);
          }
        } else {
          assert p[0] == first;
        }
      }
      assert forall o | o in p :: o in init || o == p[n];
    }
  }

  lemma PathGoesFurther(img: Image, kind: ChainKind, first: u64, w: seq<u64>) returns (p: seq<u64>)
    requires IsPath(img, kind, first, w) && !Ends(img, kind, first, w)
    ensures IsPath(img, kind, first, p) && !Within(p, w)
  {
    var c := Continuation(img, first, w);
    p := w + [c];
    assert p[|w|] == c && c in p;
    forall i | 0 < i < |p| ensures p[i] == NextOf(img, p[i - 1]) {
      assert p[i - 1] == w[i - 1];
    }
  }

  /**
   Every block on every path through usable blocks is visited, exactly when the walk ends by itself;
   and it does end by itself when it is shorter than the cap.
   */
  lemma WalkReachesEverything(img: Image, kind: ChainKind, first: u64, cap: nat)
    ensures var w := Walk(img, kind, first, {}, cap);
      && (w != [] ==> InVolume(|img|, w[|w| - 1]))
      && (Ends(img, kind, first, w) <==> forall p | IsPath(img, kind, first, p) :: Within(p, w))
      && (|w| < cap ==> Ends(img, kind, first, w))
  {
    var w := Walk(img, kind, first, {}, cap);
    WalkIsDistinctPath(img, kind, first, {}, cap);
    assert w != [] ==> Usable(img, kind, w[|w| - 1]);
    if |w| < cap {
      WalkStopsForAReason(img, kind, first, {}, cap);
    }
    if Ends(img, kind, first, w) {
      forall p | IsPath(img, kind, first, p) ensures Within(p, w) {
        PathStaysWithin(img, kind, first, w, p);
      }
    } else {
      var p := PathGoesFurther(img, kind, first, w);
    }
  }

  // ---------- A bound that does not use the cap ----------

  lemma {:induction false} WalkIsUnvisited(img: Image, kind: ChainKind, next: u64, visited: set<u64>, cap: nat)
    ensures |Walk(img, kind, next, visited, cap)| <= Unvisited(|img|, visited)
    decreases cap
  {
    if Walk(img, kind, next, visited, cap) != [] {
      FewerMissing(|img| - BLOCK_SIZE, visited, next);
      WalkIsUnvisited(img, kind, NextOf(img, next), visited + {next}, cap - 1);
    }
  }

  /** However large the cap and however unaligned the links, a walk is shorter than the volume. */
  lemma WalkFitsInVolume(img: Image, kind: ChainKind, first: u64, cap: nat)
    ensures |Walk(img, kind, first, {}, cap)| <= if |img| < BLOCK_SIZE then 0 else |img| - BLOCK_SIZE
  {
    WalkIsUnvisited(img, kind, first, {}, cap);
    if |img| >= BLOCK_SIZE {
      AllMissing(|img| - BLOCK_SIZE);
    }
  }
}
