/** The kernel heap as blocks and a free list (src/mm/heap.c), without the memory that holds them:
    the elementary changes, the two operations built from them, and what every run keeps. */
module HeapModel {
  import opened Bits
  import opened Pmm

  const HEAP_START := 0xFFFF_FFFF_8020_0000
  const BLOCK_HEADER_SIZE := 16
  const MIN_BLOCK_SIZE := 32

  /** Leaked memory is what a partly failed extension mapped: no header, never used. */
  datatype Status = Free | Live | Leaked

  /** A block with its length in bytes, header included. */
  datatype Block = Block(len: nat, status: Status)

  type Blocks = map<nat, Block>

  /** The blocks by address, the free list in list order, the end of the heap, the byte counter,
      and the sum of what every allocation so far got beyond its request. */
  datatype State = State(blocks: Blocks, order: seq<nat>, end: nat, used: nat, slack: nat)

  function PagesNeeded(n: nat): nat {
    (n + BLOCK_HEADER_SIZE + FRAME_SIZE - 1) / FRAME_SIZE
  }

  /** The least number of pages that holds n bytes and a header. */
  lemma PagesNeededLeast(n: nat)
    ensures (PagesNeeded(n) - 1) * FRAME_SIZE < n + BLOCK_HEADER_SIZE <= PagesNeeded(n) * FRAME_SIZE
  {
  }

  ghost predicate Sized(b: Blocks) {
    forall a :: a in b ==> HEAP_START <= a && a % 8 == 0 && b[a].len % 8 == 0 && 24 <= b[a].len
  }

  ghost predicate Chained(b: Blocks, end: nat) {
    forall a :: a in b ==> a + b[a].len <= end && (a + b[a].len == end || a + b[a].len in b)
  }

  ghost predicate Disjoint(b: Blocks) {
    forall a, c :: a in b && c in b && a < c ==> a + b[a].len <= c
  }

  /** The blocks partition the heap: each is followed by the next one or by the end. */
  ghost predicate Tiled(b: Blocks, end: nat) {
    && HEAP_START <= end && end % 8 == 0 && (HEAP_START == end || HEAP_START in b)
    && Sized(b) && Chained(b, end) && Disjoint(b)
  }

  predicate Distinct(order: seq<nat>) {
    forall i, j :: 0 <= i < j < |order| ==> order[i] != order[j]
  }

  /** The free list holds exactly the free blocks, each once. */
  ghost predicate Listed(b: Blocks, order: seq<nat>) {
    && Distinct(order)
    && (forall a: nat :: a in order <==> a in b && b[a].status == Free)
  }

  function Share(k: Block): nat { if k.status == Live then k.len else 0 }

  ghost function AnyKey(b: Blocks): nat
    requires b != map[]
    ensures AnyKey(b) in b
  {
    var a :| a in b; a
  }

  /** The bytes of all live blocks, headers included. */
  ghost function LiveBytes(b: Blocks): nat
    decreases |b|
  {
    if b == map[] then 0 else Share(b[AnyKey(b)]) + LiveBytes(b - {AnyKey(b)})
  }

  /** heap_used_bytes is the live bytes less all the slack there ever was, modulo 2^64. */
  ghost predicate Accounted(s: State) {
    s.used == (LiveBytes(s.blocks) - s.slack) % U64_LIMIT
  }

  ghost predicate Ok(s: State) {
    Tiled(s.blocks, s.end) && Listed(s.blocks, s.order) && Accounted(s)
  }

  predicate Ascending(order: seq<nat>) {
    forall i, j :: 0 <= i < j < |order| ==> order[i] < order[j]
  }

  /** No free block follows a free block. */
  ghost predicate Loose(b: Blocks) {
    forall a :: a in b && b[a].status == Free ==> Apart(b, a)
  }

  /** Nothing to merge, and the list in address order. */
  ghost predicate Tidy(s: State) {
    Ascending(s.order) && Loose(s.blocks)
  }

  predicate Apart(b: Blocks, a: nat)
    requires a in b
  {
    a + b[a].len in b ==> b[a + b[a].len].status != Free
  }

  // ----- the live bytes -----

  lemma {:induction false} LiveBytesWithout(b: Blocks, a: nat)
    requires a in b
    ensures LiveBytes(b) == Share(b[a]) + LiveBytes(b - {a})
    decreases |b|
  {
    var x := AnyKey(b);
    if x != a {
      LiveBytesWithout(b - {x}, a);
      LiveBytesWithout(b - {a}, x);
      assert b - {x} - {a} == b - {a} - {x};
    }
  }

  lemma LiveBytesPut(b: Blocks, a: nat, k: Block)
    ensures LiveBytes(b[a := k]) == Share(k) + LiveBytes(b - {a})
    ensures LiveBytes(b) == (if a in b then Share(b[a]) else 0) + LiveBytes(b - {a})
  {
    LiveBytesWithout(b[a := k], a);
    assert b[a := k] - {a} == b - {a};
    if a in b { LiveBytesWithout(b, a); } else { assert b - {a} == b; }
  }

  lemma {:induction false} NoLiveBytes(b: Blocks)
    requires forall a :: a in b ==> b[a].status != Live
    ensures LiveBytes(b) == 0
    decreases |b|
  {
    if b != map[] { NoLiveBytes(b - {AnyKey(b)}); }
  }

  lemma ModShift(x: int, y: int, d: int)
    requires y == x % U64_LIMIT
    ensures (y + d) % U64_LIMIT == (x + d) % U64_LIMIT
  {
    assert x + d == y + d + U64_LIMIT * (x / U64_LIMIT);
    ModPlus(y + d, x / U64_LIMIT);
  }

  lemma ModPlus(x: int, k: int)
    ensures (x + U64_LIMIT * k) % U64_LIMIT == x % U64_LIMIT
  {
    var q, r := x / U64_LIMIT, x % U64_LIMIT;
    assert x + U64_LIMIT * k == U64_LIMIT * (q + k) + r;
  }

  // ----- the free list as a sequence -----

  function Inserted(order: seq<nat>, i: nat, x: nat): seq<nat>
    requires i <= |order|
  {
    order[..i] + [x] + order[i..]
  }

  function Removed(order: seq<nat>, i: nat): seq<nat>
    requires i < |order|
  {
    order[..i] + order[i + 1..]
  }

  lemma InsertedHas(order: seq<nat>, i: nat, x: nat)
    requires i <= |order| && Distinct(order) && x !in order
    ensures Distinct(Inserted(order, i, x))
    ensures forall a: nat :: a in Inserted(order, i, x) <==> a == x || a in order
  {
    var t := Inserted(order, i, x);
    assert t[i] == x;
    forall a: nat | a in order ensures a in t {
      var j :| 0 <= j < |order| && order[j] == a;
      assert t[if j < i then j else j + 1] == a;
    }
  }

  lemma RemovedHas(order: seq<nat>, i: nat)
    requires i < |order| && Distinct(order)
    ensures Distinct(Removed(order, i))
    ensures forall a: nat :: a in Removed(order, i) <==> a != order[i] && a in order
  {
    var t := Removed(order, i);
    forall a: nat | a != order[i] && a in order ensures a in t {
      var j :| 0 <= j < |order| && order[j] == a;
      assert t[if j < i then j else j - 1] == a;
    }
  }

  // ----- the partition -----

  function Cut(b: Blocks, a: nat, r: nat, s1: Status, s2: Status): Blocks
    requires a in b && a <= r <= a + b[a].len
  {
    b[a := Block(r - a, s1)][r := Block(a + b[a].len - r, s2)]
  }

  function Merged(b: Blocks, a: nat, k: Status): Blocks
    requires a in b && a + b[a].len in b
  {
    (b - {a + b[a].len})[a := Block(b[a].len + b[a + b[a].len].len, k)]
  }

  lemma CutDisjoint(b: Blocks, a: nat, r: nat, s1: Status, s2: Status)
    requires Disjoint(b) && a in b && a < r < a + b[a].len
    ensures r !in b && Disjoint(Cut(b, a, r, s1, s2))
  {
    var b' := Cut(b, a, r, s1, s2);
    forall x, y | x in b' && y in b' && x < y ensures x + b'[x].len <= y {
      if x == r {
        assert a + b[a].len <= y;
      } else if y == r {
        assert x != a ==> x < a;
      } else {
        assert x + b[x].len <= y;
      }
    }
  }

  lemma CutSized(b: Blocks, a: nat, r: nat, s1: Status, s2: Status)
    requires Sized(b) && a in b && a + 24 <= r && r + 24 <= a + b[a].len && r % 8 == 0
    ensures Sized(Cut(b, a, r, s1, s2))
  {
    Multiples(a, b[a].len, r);
    SizedCut(b, a, r, s1, s2, b[a].len);
  }

  lemma SizedCut(b: Blocks, a: nat, r: nat, s1: Status, s2: Status, len: nat)
    requires Sized(b) && a in b && len == b[a].len && a + 24 <= r && r + 24 <= a + len
    requires r % 8 == 0 && (r - a) % 8 == 0 && (a + len - r) % 8 == 0
    ensures Sized(Cut(b, a, r, s1, s2))
  {
  }

  lemma Multiples(a: nat, len: nat, r: nat)
    requires a % 8 == 0 && len % 8 == 0 && r % 8 == 0 && a <= r <= a + len
    ensures (r - a) % 8 == 0 && (a + len - r) % 8 == 0
  {
  }

  lemma CutChained(b: Blocks, end: nat, a: nat, r: nat, s1: Status, s2: Status)
    requires Chained(b, end) && a in b && a < r < a + b[a].len
    ensures Chained(Cut(b, a, r, s1, s2), end)
  {
  }

  lemma TileCut(b: Blocks, end: nat, a: nat, r: nat, s1: Status, s2: Status)
    requires Tiled(b, end) && a in b && a + 24 <= r && r + 24 <= a + b[a].len && r % 8 == 0
    ensures r !in b
    ensures Tiled(b[a := Block(r - a, s1)][r := Block(a + b[a].len - r, s2)], end)
  {
    hide Disjoint, Chained, Sized;
    CutDisjoint(b, a, r, s1, s2);
    CutChained(b, end, a, r, s1, s2);
    CutSized(b, a, r, s1, s2);
  }

  lemma MergeDisjoint(b: Blocks, a: nat, k: Status)
    requires Disjoint(b) && a in b && a + b[a].len in b && b[a].len > 0
    ensures Disjoint(Merged(b, a, k))
  {
    forall x, y | x in Merged(b, a, k) && y in Merged(b, a, k) && x < y ensures x + Merged(b, a, k)[x].len <= y {
      hide Disjoint;
      DisjointAt(b, x, y);
      DisjointAt(b, a + b[a].len, if x == a then y else a);
    }
  }

  lemma MergeChained(b: Blocks, end: nat, a: nat, k: Status)
    requires Disjoint(b) && Chained(b, end) && a in b && a + b[a].len in b && b[a].len > 0 && b[a + b[a].len].len > 0
    ensures Chained(Merged(b, a, k), end)
  {
    forall x | x in Merged(b, a, k)
      ensures x + Merged(b, a, k)[x].len <= end && (x + Merged(b, a, k)[x].len == end || x + Merged(b, a, k)[x].len in Merged(b, a, k))
    {
      MergedFollower(b, end, a, k, x);
    }
  }

  lemma MergedFollower(b: Blocks, end: nat, a: nat, k: Status, x: nat)
    requires Disjoint(b) && Chained(b, end) && a in b && a + b[a].len in b && b[a].len > 0 && b[a + b[a].len].len > 0
    requires x in Merged(b, a, k)
    ensures var y := x + Merged(b, a, k)[x].len; y <= end && (y == end || y in Merged(b, a, k))
  {
    hide Disjoint, Chained;
    ChainedAt(b, end, x);
    ChainedAt(b, end, a + b[a].len);
    if x != a { DisjointAt(b, x, a); }
  }

  lemma ChainedAt(b: Blocks, end: nat, a: nat)
    requires Chained(b, end) && a in b
    ensures a + b[a].len <= end && (a + b[a].len == end || a + b[a].len in b)
  {
  }

  lemma DisjointAt(b: Blocks, a: nat, c: nat)
    requires Disjoint(b) && a in b && c in b && a != c
    ensures a + b[a].len <= c || c + b[c].len <= a
  {
  }

  lemma TileMerge(b: Blocks, end: nat, a: nat, k: Status)
    requires Tiled(b, end) && a in b && a + b[a].len in b
    ensures var c := a + b[a].len; Tiled((b - {c})[a := Block(b[a].len + b[c].len, k)], end)
  {
    hide Disjoint, Chained;
    MergeDisjoint(b, a, k);
    MergeChained(b, end, a, k);
  }

  lemma TileStatus(b: Blocks, end: nat, a: nat, k: Status)
    requires Tiled(b, end) && a in b
    ensures Tiled(b[a := b[a].(status := k)], end)
  {
  }

  lemma TileAppend(b: Blocks, end: nat, len: nat, k: Status)
    requires Tiled(b, end) && 24 <= len && len % 8 == 0
    ensures end !in b && Tiled(b[end := Block(len, k)], end + len)
  {
  }

  // ----- the elementary changes -----

  /** split_block: list element i keeps `n` bytes when the rest can be a block of its own. */
  function SplitAt(s: State, i: nat, n: nat): State
    requires i < |s.order| && s.order[i] in s.blocks
  {
    var a := s.order[i];
    var len := s.blocks[a].len;
    if len >= n + BLOCK_HEADER_SIZE + MIN_BLOCK_SIZE then
      var r := a + BLOCK_HEADER_SIZE + n;
      s.(blocks := s.blocks[a := Block(n + BLOCK_HEADER_SIZE, Free)][r := Block(len - n - BLOCK_HEADER_SIZE, Free)],
         order := Inserted(s.order, i + 1, r))
    else s
  }

  /** List element i leaves the list for a request of n bytes. */
  function TakeAt(s: State, i: nat, n: nat): State
    requires i < |s.order| && s.order[i] in s.blocks && n + BLOCK_HEADER_SIZE <= s.blocks[s.order[i]].len
  {
    var a := s.order[i];
    s.(blocks := s.blocks[a := s.blocks[a].(status := Live)],
       order := Removed(s.order, i),
       used := (s.used + n + BLOCK_HEADER_SIZE) % U64_LIMIT,
       slack := s.slack + (s.blocks[a].len - BLOCK_HEADER_SIZE - n))
  }

  /** How many list elements come before the first one at or above address a. */
  function Before(order: seq<nat>, a: nat): (i: nat)
    ensures i <= |order| && (i < |order| ==> order[i] >= a)
    ensures forall j :: 0 <= j < i ==> order[j] < a
  {
    if order == [] || order[0] >= a then 0 else 1 + Before(order[1..], a)
  }

  /** A live block becomes free and enters the list in front of the first higher address. */
  function InsertAt(s: State, i: nat, a: nat): State
    requires a in s.blocks && i <= |s.order|
  {
    s.(blocks := s.blocks[a := s.blocks[a].(status := Free)],
       order := Inserted(s.order, i, a),
       used := (s.used - s.blocks[a].len) % U64_LIMIT)
  }

  /** List element i absorbs element i + 1 when that follows it in memory. */
  function JoinAt(s: State, i: nat): State
    requires i < |s.order| && s.order[i] in s.blocks
    requires i + 1 < |s.order| ==> s.order[i + 1] in s.blocks
  {
    var a := s.order[i];
    if i + 1 < |s.order| && a + s.blocks[a].len == s.order[i + 1] then
      var c := s.order[i + 1];
      s.(blocks := (s.blocks - {c})[a := Block(s.blocks[a].len + s.blocks[c].len, s.blocks[a].status)],
         order := Removed(s.order, i + 1))
    else s
  }

  /** The extension succeeded: its pages are one free block, first in the list. */
  function Grow(s: State, pages: nat): State {
    s.(blocks := s.blocks[s.end := Block(pages * FRAME_SIZE, Free)], order := Inserted(s.order, 0, s.end),
       end := s.end + pages * FRAME_SIZE)
  }

  /** The extension failed after `pages` pages. */
  function Leak(s: State, pages: nat): State {
    if pages == 0 then s
    else s.(blocks := s.blocks[s.end := Block(pages * FRAME_SIZE, Leaked)], end := s.end + pages * FRAME_SIZE)
  }

  lemma SplitOk(s: State, i: nat, n: nat)
    requires Ok(s) && i < |s.order| && n % 8 == 0 && 8 <= n
    requires s.order[i] in s.blocks && n + BLOCK_HEADER_SIZE <= s.blocks[s.order[i]].len
    ensures Ok(SplitAt(s, i, n))
    ensures var t := SplitAt(s, i, n); |t.order| >= |s.order| && t.order[i] == s.order[i] && t.order[i] in t.blocks
    ensures var len := SplitAt(s, i, n).blocks[s.order[i]].len;
            n + BLOCK_HEADER_SIZE <= len < n + BLOCK_HEADER_SIZE + MIN_BLOCK_SIZE
  {
    hide LiveBytes, Tiled;
    var a := s.order[i];
    var t := SplitAt(s, i, n);
    if t != s {
      var r := a + BLOCK_HEADER_SIZE + n;
      assert a % 8 == 0 by { TileAligned(s.blocks, s.end, a); }
      TileCut(s.blocks, s.end, a, r, Free, Free);
      InsertedHas(s.order, i + 1, r);
      var mid := s.blocks[a := Block(n + BLOCK_HEADER_SIZE, Free)];
      LiveBytesPut(s.blocks, a, mid[a]);
      LiveBytesPut(mid, r, t.blocks[r]);
    }
  }

  lemma TileAligned(b: Blocks, end: nat, a: nat)
    requires Tiled(b, end) && a in b
    ensures a % 8 == 0 && b[a].len % 8 == 0 && 24 <= b[a].len && HEAP_START <= a && a + b[a].len <= end && end % 8 == 0
  {
  }

  lemma TakeOk(s: State, i: nat, n: nat)
    requires Ok(s) && i < |s.order| && n % 8 == 0 && s.order[i] in s.blocks
    requires n + BLOCK_HEADER_SIZE <= s.blocks[s.order[i]].len < n + BLOCK_HEADER_SIZE + MIN_BLOCK_SIZE
    ensures Ok(TakeAt(s, i, n))
    ensures TakeAt(s, i, n).slack - s.slack in {0, 8, 16, 24}
  {
    hide LiveBytes, Tiled;
    var a := s.order[i];
    var t := TakeAt(s, i, n);
    TileAligned(s.blocks, s.end, a);
    TileStatus(s.blocks, s.end, a, Live);
    RemovedHas(s.order, i);
    LiveBytesPut(s.blocks, a, t.blocks[a]);
    ModShift(LiveBytes(s.blocks) - s.slack, s.used, n + BLOCK_HEADER_SIZE);
    SlackBound(s.blocks[a].len, n);
  }

  lemma SlackBound(len: nat, n: nat)
    requires len % 8 == 0 && n % 8 == 0 && n + BLOCK_HEADER_SIZE <= len < n + BLOCK_HEADER_SIZE + MIN_BLOCK_SIZE
    ensures len - BLOCK_HEADER_SIZE - n in {0, 8, 16, 24}
  {
  }

  lemma InsertOk(s: State, i: nat, a: nat)
    requires Ok(s) && i <= |s.order| && a in s.blocks && s.blocks[a].status == Live
    ensures Ok(InsertAt(s, i, a))
  {
    hide LiveBytes, Tiled;
    var t := InsertAt(s, i, a);
    TileStatus(s.blocks, s.end, a, Free);
    InsertedHas(s.order, i, a);
    LiveBytesPut(s.blocks, a, t.blocks[a]);
    ModShift(LiveBytes(s.blocks) - s.slack, s.used, 0 - s.blocks[a].len);
  }

  lemma JoinOk(s: State, i: nat)
    requires Ok(s) && i < |s.order| && s.order[i] in s.blocks && (i + 1 < |s.order| ==> s.order[i + 1] in s.blocks)
    ensures Ok(JoinAt(s, i))
  {
    hide LiveBytes, Tiled, Removed;
    var t := JoinAt(s, i);
    if t != s {
      TileAligned(s.blocks, s.end, s.order[i]);
      var a, c := s.order[i], s.order[i + 1];
      TileMerge(s.blocks, s.end, a, Free);
      RemovedHas(s.order, i + 1);
      MergeLive(s.blocks, a);
    }
  }

  lemma MergeLive(b: Blocks, a: nat)
    requires a in b && a + b[a].len in b && b[a].len > 0 && b[a].status == Free && b[a + b[a].len].status == Free
    ensures LiveBytes(Merged(b, a, Free)) == LiveBytes(b)
  {
    hide LiveBytes;
    LiveBytesWithout(b, a + b[a].len);
    LiveBytesPut(b - {a + b[a].len}, a, Merged(b, a, Free)[a]);
  }

  lemma GrowOk(s: State, pages: nat)
    requires Ok(s) && pages > 0
    ensures Ok(Grow(s, pages))
  {
    hide LiveBytes, Tiled;
    WholePages(pages);
    TileAppend(s.blocks, s.end, pages * FRAME_SIZE, Free);
    InsertedHas(s.order, 0, s.end);
    LiveBytesPut(s.blocks, s.end, Block(pages * FRAME_SIZE, Free));
  }

  lemma LeakOk(s: State, pages: nat)
    requires Ok(s)
    ensures Ok(Leak(s, pages))
  {
    hide LiveBytes, Tiled;
    if pages > 0 {
      WholePages(pages);
      TileAppend(s.blocks, s.end, pages * FRAME_SIZE, Leaked);
      LiveBytesPut(s.blocks, s.end, Block(pages * FRAME_SIZE, Leaked));
    }
  }

  // ----- the operations -----

  /** The first list element that can hold n bytes, or the length of the list. */
  function FirstFit(b: Blocks, order: seq<nat>, n: nat): (i: nat)
    ensures i <= |order| && (i < |order| && order[i] in b ==> n + BLOCK_HEADER_SIZE <= b[order[i]].len)
    ensures forall j :: 0 <= j < i ==> order[j] in b && b[order[j]].len < n + BLOCK_HEADER_SIZE
  {
    if order == [] || order[0] !in b || n + BLOCK_HEADER_SIZE <= b[order[0]].len then 0
    else 1 + FirstFit(b, order[1..], n)
  }

  /** Allocation of n bytes from list element i. */
  ghost function Carve(s: State, i: nat, n: nat): State
    requires Ok(s) && i < |s.order| && n % 8 == 0 && 8 <= n
    requires s.order[i] in s.blocks && n + BLOCK_HEADER_SIZE <= s.blocks[s.order[i]].len
  {
    SplitOk(s, i, n);
    TakeAt(SplitAt(s, i, n), i, n)
  }

  /** The first half of kfree: insertion, and the merge with the next list element. */
  ghost function Freed(s: State, a: nat): (t: State)
    requires Ok(s) && a in s.blocks && s.blocks[a].status == Live
    ensures Ok(t) && t.end == s.end && t.slack == s.slack
    ensures Before(s.order, a) < |t.order| && t.order[Before(s.order, a)] == a
  {
    var i := Before(s.order, a);
    FreedOk(s, i, a);
    JoinAt(InsertAt(s, i, a), i)
  }

  lemma FreedOk(s: State, i: nat, a: nat)
    requires Ok(s) && i <= |s.order| && a in s.blocks && s.blocks[a].status == Live
    ensures var t := InsertAt(s, i, a);
            && i < |t.order| && t.order[i] == a && a in t.blocks && (i + 1 < |t.order| ==> t.order[i + 1] in t.blocks)
            && Ok(JoinAt(t, i)) && JoinAt(t, i).end == s.end && JoinAt(t, i).slack == s.slack
            && i < |JoinAt(t, i).order| && JoinAt(t, i).order[i] == a
  {
    hide Ok;
    InsertOk(s, i, a);
    var t := InsertAt(s, i, a);
    if i + 1 < |t.order| { ListedAt(t, i + 1); }
    JoinOk(t, i);
  }

  /** kfree of the live block at a: the first half, and the merge with the previous element. */
  ghost function Release(s: State, a: nat): (t: State)
    requires Ok(s) && a in s.blocks && s.blocks[a].status == Live
    ensures Ok(t) && t.end == s.end && t.slack == s.slack
  {
    var i := Before(s.order, a);
    var t := Freed(s, a);
    if i > 0 then
      ReleaseOk(t, i);
      JoinAt(t, i - 1)
    else t
  }

  lemma ReleaseOk(t: State, i: nat)
    requires Ok(t) && 0 < i < |t.order|
    ensures t.order[i - 1] in t.blocks && t.order[i] in t.blocks
    ensures Ok(JoinAt(t, i - 1)) && JoinAt(t, i - 1).end == t.end && JoinAt(t, i - 1).slack == t.slack
  {
    hide Ok;
    ListedAt(t, i - 1);
    ListedAt(t, i);
    JoinOk(t, i - 1);
  }

  lemma CarveOk(s: State, i: nat, n: nat)
    requires Ok(s) && i < |s.order| && n % 8 == 0 && 8 <= n
    requires s.order[i] in s.blocks && n + BLOCK_HEADER_SIZE <= s.blocks[s.order[i]].len
    ensures Ok(Carve(s, i, n)) && Carve(s, i, n).end == s.end
    ensures Carve(s, i, n).slack - s.slack in {0, 8, 16, 24}
  {
    hide Ok, TakeAt;
    SplitOk(s, i, n);
    TakeOk(SplitAt(s, i, n), i, n);
    TakeKeepsEnd(SplitAt(s, i, n), i, n);
  }

  lemma TakeKeepsEnd(s: State, i: nat, n: nat)
    requires i < |s.order| && s.order[i] in s.blocks && n + BLOCK_HEADER_SIZE <= s.blocks[s.order[i]].len
    ensures TakeAt(s, i, n).end == s.end
  {
  }

  /** After a successful extension the new block is first in the list and fits the request, so
      kmalloc's second attempt never extends again. */
  lemma RetryFits(s: State, n: nat)
    requires Ok(s) && n > 0
    ensures var t := Grow(s, PagesNeeded(n)); FirstFit(t.blocks, t.order, n) == 0 && t.order[0] == s.end && |t.order| > 0
  {
    var t := Grow(s, PagesNeeded(n));
    assert t.order[0] == s.end;
  }

  /** What a caller does: ask for bytes, where `mapped` is how many pages an extension, should
      one be needed, manages to map; or give a live block back. */
  datatype Event = Alloc(size: nat, mapped: nat) | Dealloc(addr: nat)

  predicate Grows(s: State, e: Event) {
    e.Alloc? && e.size > 0 && FirstFit(s.blocks, s.order, AlignUp8(e.size)) == |s.order|
  }

  predicate Enabled(s: State, e: Event) {
    match e
    case Alloc(_, _) => true
    case Dealloc(a) => a in s.blocks && s.blocks[a].status == Live
  }

  /** One call of kmalloc or kfree. */
  ghost function Step(s: State, e: Event): State
    requires Ok(s) && Enabled(s, e)
  {
    match e
    case Dealloc(a) => Release(s, a)
    case Alloc(size, mapped) =>
      var n := AlignUp8(size);
      var i := FirstFit(s.blocks, s.order, n);
      if size == 0 then s
      else if i < |s.order| then Carve(s, i, n)
      else if mapped < PagesNeeded(n) then Leak(s, mapped)
      else
        GrowOk(s, PagesNeeded(n));
        RetryFits(s, n);
        Carve(Grow(s, PagesNeeded(n)), 0, n)
  }

  /** The address of the block that an allocation takes, when it takes one. */
  function Chosen(s: State, e: Event): nat
    requires e.Alloc?
  {
    var i := FirstFit(s.blocks, s.order, AlignUp8(e.size));
    if i < |s.order| then s.order[i] else s.end
  }

  predicate Succeeds(s: State, e: Event) {
    e.Alloc? && e.size > 0 && (Grows(s, e) ==> e.mapped >= PagesNeeded(AlignUp8(e.size)))
  }

  lemma ListedAt(s: State, i: nat)
    requires Ok(s) && i < |s.order|
    ensures s.order[i] in s.blocks && s.blocks[s.order[i]].status == Free
    ensures HEAP_START <= s.order[i] && s.order[i] % 8 == 0
  {
    assert s.order[i] in s.order;
  }

  lemma StepOk(s: State, e: Event)
    requires Ok(s) && Enabled(s, e)
    ensures Ok(Step(s, e))
    ensures Step(s, e).slack - s.slack in {0, 8, 16, 24} && (e.Dealloc? ==> Step(s, e).slack == s.slack)
    ensures !Grows(s, e) ==> Step(s, e).end == s.end
  {
    hide Ok, Carve, Release;
    match e
    case Dealloc(a) =>
    case Alloc(size, mapped) =>
      var n := AlignUp8(size);
      var i := FirstFit(s.blocks, s.order, n);
      if size > 0 {
        if i < |s.order| {
          ListedAt(s, i);
          CarveOk(s, i, n);
        } else if mapped < PagesNeeded(n) {
          LeakOk(s, mapped);
        } else {
          GrowOk(s, PagesNeeded(n));
          RetryFits(s, n);
          CarveOk(Grow(s, PagesNeeded(n)), 0, n);
        }
      }
  }

  lemma FirstFitIs(b: Blocks, order: seq<nat>, n: nat, k: nat)
    requires k <= |order| && forall j :: 0 <= j < |order| ==> order[j] in b
    requires forall j :: 0 <= j < k ==> b[order[j]].len < n + BLOCK_HEADER_SIZE
    requires k < |order| ==> n + BLOCK_HEADER_SIZE <= b[order[k]].len
    ensures FirstFit(b, order, n) == k
  {
  }

  lemma BeforeIs(order: seq<nat>, a: nat, k: nat)
    requires k <= |order| && (forall j :: 0 <= j < k ==> order[j] < a) && (k < |order| ==> order[k] >= a)
    ensures Before(order, a) == k
  {
  }

  // ----- what one allocation gives its caller -----

  /** Every live block stays as it is. */
  ghost predicate LiveKept(b: Blocks, b': Blocks) {
    forall a :: a in b && b[a].status == Live ==> a in b' && b'[a] == b[a]
  }

  /** Carving element i makes exactly that block live, with at most 24 bytes more than asked. */
  lemma CarveTakes(s: State, i: nat, n: nat)
    requires Ok(s) && i < |s.order| && n % 8 == 0 && 8 <= n
    requires s.order[i] in s.blocks && n + BLOCK_HEADER_SIZE <= s.blocks[s.order[i]].len
    ensures var t := Carve(s, i, n);
            var a := s.order[i];
            && a in t.blocks && t.blocks[a].status == Live
            && n + BLOCK_HEADER_SIZE <= t.blocks[a].len <= n + BLOCK_HEADER_SIZE + 24
            && LiveKept(s.blocks, t.blocks)
            && (forall c :: c in t.blocks && t.blocks[c].status == Live && c != a ==> c in s.blocks && s.blocks[c].status == Live)
  {
    hide Ok, Carve, Disjoint;
    var a := s.order[i];
    ListedAt(s, i);
    CarveShape(s, i, n);
    TilesDisjoint(s);
    if s.blocks[a].len >= n + BLOCK_HEADER_SIZE + MIN_BLOCK_SIZE {
      CutDisjoint(s.blocks, a, a + BLOCK_HEADER_SIZE + n, Live, Free);
    } else {
      SizesMultiple(s, a, n);
    }
  }

  lemma SizesMultiple(s: State, a: nat, n: nat)
    requires Ok(s) && a in s.blocks && n % 8 == 0 && n + BLOCK_HEADER_SIZE <= s.blocks[a].len < n + BLOCK_HEADER_SIZE + MIN_BLOCK_SIZE
    ensures s.blocks[a].len <= n + BLOCK_HEADER_SIZE + 24
  {
    SlackBound(s.blocks[a].len, n);
  }

  /** kmalloc takes the first block in list order that fits, extends the heap only when none
      does, and returns nothing only for size 0 or a failed extension.  The block it takes was
      not live before, lies inside the heap, overlaps no other block, and no live block changes. */
  lemma AllocContract(s: State, e: Event)
    requires Ok(s) && e.Alloc?
    ensures var t := Step(s, e);
            LiveKept(s.blocks, t.blocks)
    ensures var t := Step(s, e);
            if Succeeds(s, e) then
              var a := Chosen(s, e);
              && (a in s.blocks ==> s.blocks[a].status == Free)
              && a in t.blocks && t.blocks[a].status == Live
              && e.size + BLOCK_HEADER_SIZE <= t.blocks[a].len && a + t.blocks[a].len <= t.end
              && (forall c :: c in t.blocks && c != a ==> c + t.blocks[c].len <= a || a + t.blocks[a].len <= c)
              && (forall c :: c in t.blocks && t.blocks[c].status == Live && c != a ==> c in s.blocks && s.blocks[c].status == Live)
            else forall c :: c in t.blocks && t.blocks[c].status == Live ==> c in s.blocks && s.blocks[c].status == Live
  {
    hide Ok, Carve;
    var n := AlignUp8(e.size);
    var i := FirstFit(s.blocks, s.order, n);
    StepOk(s, e);
    if e.size > 0 {
      EndIsFree(s);
      if i < |s.order| {
        ListedAt(s, i);
        CarveTakes(s, i, n);
        BlockApart(Step(s, e), s.order[i]);
      } else if e.mapped >= PagesNeeded(n) {
        GrowOk(s, PagesNeeded(n));
        RetryFits(s, n);
        CarveTakes(Grow(s, PagesNeeded(n)), 0, n);
        BlockApart(Step(s, e), s.end);
      }
    }
  }

  lemma EndIsFree(s: State)
    requires Ok(s)
    ensures s.end !in s.blocks
  {
  }

  lemma BlockApart(s: State, a: nat)
    requires Ok(s) && a in s.blocks
    ensures a + s.blocks[a].len <= s.end
    ensures forall c :: c in s.blocks && c != a ==> c + s.blocks[c].len <= a || a + s.blocks[a].len <= c
  {
  }

  /** The tiling says what it should: every byte of the heap lies in exactly one block. */
  lemma {:induction false} BlockOf(b: Blocks, end: nat, x: nat, from: nat) returns (a: nat)
    requires Tiled(b, end) && from in b && from <= x < end
    ensures a in b && a <= x < a + b[a].len
    ensures forall c :: c in b && c <= x < c + b[c].len ==> c == a
    decreases x - from
  {
    if x < from + b[from].len {
      a := from;
    } else {
      a := BlockOf(b, end, x, from + b[from].len);
    }
  }

  lemma EveryByteInOneBlock(s: State, x: nat)
    requires Ok(s) && HEAP_START <= x < s.end
    ensures exists a :: a in s.blocks && a <= x < a + s.blocks[a].len &&
              forall c :: c in s.blocks && c <= x < c + s.blocks[c].len ==> c == a
  {
    hide LiveBytes, Sized, Chained, Disjoint, Listed;
    var a := BlockOf(s.blocks, s.end, x, HEAP_START);
  }

  // ----- address order and full reclamation -----

  /** What carving does to blocks and list, in one step. */
  lemma CarveShape(s: State, i: nat, n: nat)
    requires Ok(s) && i < |s.order| && n % 8 == 0 && 8 <= n
    requires s.order[i] in s.blocks && n + BLOCK_HEADER_SIZE <= s.blocks[s.order[i]].len
    ensures var t := Carve(s, i, n);
            var a := s.order[i];
            var r := a + BLOCK_HEADER_SIZE + n;
            if s.blocks[a].len >= n + BLOCK_HEADER_SIZE + MIN_BLOCK_SIZE
            then t.blocks == Cut(s.blocks, a, r, Live, Free) && t.order == s.order[i := r]
            else t.blocks == s.blocks[a := s.blocks[a].(status := Live)] && t.order == Removed(s.order, i)
  {
    hide Ok;
    SplitOk(s, i, n);
  }

  lemma LooseCut(b: Blocks, a: nat, r: nat)
    requires Disjoint(b) && Loose(b) && a in b && b[a].status == Free && a < r < a + b[a].len
    ensures Loose(Cut(b, a, r, Live, Free))
  {
    var b' := Cut(b, a, r, Live, Free);
    forall c | c in b' && b'[c].status == Free ensures Apart(b', c) {
      if c == r {
        assert Apart(b, a);
      } else {
        assert Apart(b, c);
        assert c + b[c].len != r by { if c < a { assert c + b[c].len <= a; } }
      }
    }
  }

  lemma LooseTaken(b: Blocks, a: nat)
    requires Loose(b) && a in b
    ensures Loose(b[a := b[a].(status := Live)])
  {
    var b' := b[a := b[a].(status := Live)];
    forall c | c in b' && b'[c].status == Free ensures Apart(b', c) {
      assert Apart(b, c);
    }
  }

  /** Carving from a tidy heap leaves it tidy. */
  lemma CarveTidy(s: State, i: nat, n: nat)
    requires Ok(s) && Tidy(s) && i < |s.order| && n % 8 == 0 && 8 <= n
    requires s.order[i] in s.blocks && n + BLOCK_HEADER_SIZE <= s.blocks[s.order[i]].len
    ensures Tidy(Carve(s, i, n))
  {
    hide Ok, Carve, Loose, Apart;
    var a := s.order[i];
    CarveShape(s, i, n);
    TilesDisjoint(s);
    ListedAt(s, i);
    LooseTaken(s.blocks, a);
    if s.blocks[a].len >= n + BLOCK_HEADER_SIZE + MIN_BLOCK_SIZE {
      LooseCut(s.blocks, a, a + BLOCK_HEADER_SIZE + n);
      forall j | i < j < |s.order| ensures a + s.blocks[a].len <= s.order[j] {
        ListedAt(s, j);
      }
    }
  }

  lemma TilesDisjoint(s: State)
    requires Ok(s)
    ensures Disjoint(s.blocks) && Listed(s.blocks, s.order)
    ensures forall a, c :: a in s.blocks && c in s.blocks && a < c ==> a + s.blocks[a].len <= c
    ensures forall a :: a in s.blocks ==> 24 <= s.blocks[a].len
  {
  }

  /** In an ordered list, the free block right behind a is the element where a is inserted. */
  lemma NextInList(s: State, a: nat)
    requires Ok(s) && Ascending(s.order) && a in s.blocks && s.blocks[a].status == Live
    requires var c := a + s.blocks[a].len; c in s.blocks && s.blocks[c].status == Free
    ensures var i := Before(s.order, a); i < |s.order| && s.order[i] == a + s.blocks[a].len
  {
    hide Ok;
    TilesDisjoint(s);
    var i, c := Before(s.order, a), a + s.blocks[a].len;
    var j :| 0 <= j < |s.order| && s.order[j] == c;
    ListedAt(s, i);
  }

  /** And the free block right in front of a is the element before that. */
  lemma PreviousInList(s: State, a: nat, p: nat)
    requires Ok(s) && Ascending(s.order) && a in s.blocks && s.blocks[a].status == Live
    requires p in s.blocks && s.blocks[p].status == Free && p + s.blocks[p].len == a
    ensures var i := Before(s.order, a); i > 0 && s.order[i - 1] == p
  {
    hide Ok;
    TilesDisjoint(s);
    var i := Before(s.order, a);
    var j :| 0 <= j < |s.order| && s.order[j] == p;
    if i > 0 && s.order[i - 1] > p {
      ListedAt(s, i - 1);
    }
  }

  /** Every free block, those right in front of a apart, is followed by no free block. */
  ghost predicate LooseBut(b: Blocks, a: nat) {
    forall c :: c in b && b[c].status == Free && c + b[c].len != a ==> Apart(b, c)
  }

  lemma LooseFreed(b: Blocks, a: nat)
    requires Loose(b) && a in b && Apart(b, a)
    ensures LooseBut(b[a := b[a].(status := Free)], a)
  {
    var b' := b[a := b[a].(status := Free)];
    forall c | c in b' && b'[c].status == Free && c + b'[c].len != a ensures Apart(b', c) {
      assert Apart(b, c);
    }
  }

  lemma LooseFreedAndMerged(b: Blocks, a: nat)
    requires Loose(b) && a in b && a + b[a].len in b && b[a + b[a].len].status == Free
    requires b[a].len > 0 && b[a + b[a].len].len > 0
    ensures LooseBut(Merged(b[a := b[a].(status := Free)], a, Free), a)
  {
    var b' := Merged(b[a := b[a].(status := Free)], a, Free);
    assert Apart(b, a + b[a].len);
    forall c | c in b' && b'[c].status == Free && c + b'[c].len != a ensures Apart(b', c) {
      if c != a { assert Apart(b, c); }
    }
  }

  lemma LoosePrevious(b: Blocks, a: nat, p: nat)
    requires LooseBut(b, a) && Disjoint(b) && p in b && a in b && b[a].status == Free && b[p].status == Free && p + b[p].len == a
    requires b[a].len > 0 && b[p].len > 0
    ensures Loose(Merged(b, p, Free))
  {
    var b' := Merged(b, p, Free);
    assert Apart(b, a);
    forall c | c in b' && b'[c].status == Free ensures Apart(b', c) {
      if c != p {
        assert c + b[c].len != a by { if c < p { assert c + b[c].len <= p; } else { assert p + b[p].len <= c; } }
        assert Apart(b, c);
      }
    }
  }

  lemma LooseNoPrevious(b: Blocks, a: nat)
    requires LooseBut(b, a) && forall p :: p in b && b[p].status == Free ==> p + b[p].len != a
    ensures Loose(b)
  {
  }

  lemma AscendingInserted(order: seq<nat>, a: nat)
    requires Ascending(order) && a !in order
    ensures Ascending(Inserted(order, Before(order, a), a))
  {
    var i := Before(order, a);
    var t := Inserted(order, i, a);
    if i < |order| { assert order[i] != a; }
    forall j, k | 0 <= j < k < |t| ensures t[j] < t[k] {
    }
  }

  lemma AscendingRemoved(order: seq<nat>, i: nat)
    requires Ascending(order) && i < |order|
    ensures Ascending(Removed(order, i))
  {
  }

  /** Whether the list element at the insertion point lies right behind a. */
  lemma BehindInList(s: State, a: nat)
    requires Ok(s) && Ascending(s.order) && a in s.blocks && s.blocks[a].status == Live
    ensures var i := Before(s.order, a);
            var c := a + s.blocks[a].len;
            && a !in s.order && a < c
            && (c in s.blocks && s.blocks[c].status == Free <==> i < |s.order| && s.order[i] == c)
  {
    hide Ok;
    TilesDisjoint(s);
    var i, c := Before(s.order, a), a + s.blocks[a].len;
    if c in s.blocks && s.blocks[c].status == Free { NextInList(s, a); }
    if i < |s.order| { ListedAt(s, i); }
  }

  /** What the first half of kfree does to blocks and list. */
  lemma FreedShape(s: State, a: nat)
    requires Ok(s) && Ascending(s.order) && a in s.blocks && s.blocks[a].status == Live
    ensures var i := Before(s.order, a);
            var c := a + s.blocks[a].len;
            var b := s.blocks[a := s.blocks[a].(status := Free)];
            && a !in s.order
            && if c in s.blocks && s.blocks[c].status == Free
               then Freed(s, a).blocks == Merged(b, a, Free) && Freed(s, a).order == Removed(Inserted(s.order, i, a), i + 1)
               else Freed(s, a).blocks == b && Freed(s, a).order == Inserted(s.order, i, a)
  {
    hide Ok, Removed, Before;
    var i := Before(s.order, a);
    BehindInList(s, a);
    FreedOk(s, i, a);
    var order := Inserted(s.order, i, a);
    assert order[i] == a && (i < |s.order| ==> order[i + 1] == s.order[i]) && |order| == |s.order| + 1;
    hide Inserted;
    assert InsertAt(s, i, a).order == order;
  }

  lemma FreedTidy(s: State, a: nat)
    requires Ok(s) && Tidy(s) && a in s.blocks && s.blocks[a].status == Live
    ensures Ascending(Freed(s, a).order) && LooseBut(Freed(s, a).blocks, a)
  {
    hide Ok, Loose, LooseBut, Freed, Apart, Before, Disjoint, Listed;
    var i, c := Before(s.order, a), a + s.blocks[a].len;
    FreedShape(s, a);
    TilesDisjoint(s);
    AscendingInserted(s.order, a);
    if c in s.blocks && s.blocks[c].status == Free {
      NextInList(s, a);
      AscendingRemoved(Inserted(s.order, i, a), i + 1);
      LooseFreedAndMerged(s.blocks, a);
    } else {
      NothingBehind(s.blocks, a);
      LooseFreed(s.blocks, a);
    }
  }

  lemma NothingBehind(b: Blocks, a: nat)
    requires a in b && (a + b[a].len in b ==> b[a + b[a].len].status != Free)
    ensures Apart(b, a)
  {
  }

  /** kfree leaves a tidy heap tidy: every merge that is possible is made. */
  lemma ReleaseTidy(s: State, a: nat)
    requires Ok(s) && Tidy(s) && a in s.blocks && s.blocks[a].status == Live
    ensures Tidy(Release(s, a))
  {
    hide Ok, Loose, LooseBut, Freed, Apart, Ascending;
    FreedTidy(s, a);
    if p :| p in Freed(s, a).blocks && Freed(s, a).blocks[p].status == Free && p + Freed(s, a).blocks[p].len == a {
      BlocksInFront(s, a, p);
      SecondHalfMerges(Freed(s, a), Before(s.order, a), a, p);
    } else {
      SecondHalfKeeps(Freed(s, a), Before(s.order, a), a);
    }
  }

  lemma SecondHalfMerges(t: State, i: nat, a: nat, p: nat)
    requires Ok(t) && 0 < i < |t.order| && t.order[i - 1] == p && t.order[i] == a
    requires Ascending(t.order) && LooseBut(t.blocks, a)
    requires p in t.blocks && p + t.blocks[p].len == a
    ensures Tidy(JoinAt(t, i - 1))
  {
    hide Ok, Loose, LooseBut, Ascending;
    ListedAt(t, i);
    ListedAt(t, i - 1);
    TilesDisjoint(t);
    AscendingRemoved(t.order, i);
    LoosePrevious(t.blocks, a, p);
  }

  lemma SecondHalfKeeps(t: State, i: nat, a: nat)
    requires Ok(t) && i < |t.order| && t.order[i] == a
    requires Ascending(t.order) && LooseBut(t.blocks, a)
    requires forall p :: p in t.blocks && t.blocks[p].status == Free ==> p + t.blocks[p].len != a
    ensures Tidy(t) && (i > 0 ==> t.order[i - 1] in t.blocks && JoinAt(t, i - 1) == t)
  {
    hide Ok, Loose, LooseBut, Ascending;
    LooseNoPrevious(t.blocks, a);
    if i > 0 { ListedAt(t, i - 1); }
  }

  /** The free block right in front of the one just freed precedes it in the list. */
  lemma BlocksInFront(s: State, a: nat, p: nat)
    requires Ok(s) && Tidy(s) && a in s.blocks && s.blocks[a].status == Live
    requires p in Freed(s, a).blocks && Freed(s, a).blocks[p].status == Free && p + Freed(s, a).blocks[p].len == a
    ensures var i := Before(s.order, a); i > 0 && i < |Freed(s, a).order| && Freed(s, a).order[i - 1] == p
  {
    hide Ok, Loose, Freed, Apart;
    FreedBlock(s, a, p);
    PreviousInList(s, a, p);
    FreedPrefix(s, a);
  }

  lemma FreedBlock(s: State, a: nat, p: nat)
    requires Ok(s) && Tidy(s) && a in s.blocks && s.blocks[a].status == Live
    requires p in Freed(s, a).blocks && p + Freed(s, a).blocks[p].len == a
    ensures p in s.blocks && s.blocks[p] == Freed(s, a).blocks[p]
  {
    hide Ok, Loose, Freed, Apart;
    FreedShape(s, a);
    TilesDisjoint(s);
  }

  lemma FreedPrefix(s: State, a: nat)
    requires Ok(s) && Tidy(s) && a in s.blocks && s.blocks[a].status == Live
    ensures var i := Before(s.order, a);
            i < |Freed(s, a).order| && (i > 0 ==> Freed(s, a).order[i - 1] == s.order[i - 1])
  {
    hide Ok, Loose, Freed, Apart;
    FreedShape(s, a);
  }

  // ----- runs -----

  /** s leads to t through the calls in es. */
  ghost predicate Runs(s: State, es: seq<Event>, t: State)
    requires Ok(s)
    decreases |es|
  {
    if es == [] then s == t
    else
      && Enabled(s, es[0])
      && (StepOk(s, es[0]); Runs(Step(s, es[0]), es[1..], t))
  }

  /** No call of the run extends the heap. */
  ghost predicate NoGrowth(s: State, es: seq<Event>)
    requires Ok(s)
    decreases |es|
  {
    es == [] || (Enabled(s, es[0]) && !Grows(s, es[0]) && (StepOk(s, es[0]); NoGrowth(Step(s, es[0]), es[1..])))
  }

  /** Every extension of the run is for an empty list or leaves no remainder. */
  ghost predicate Neat(s: State, es: seq<Event>)
    requires Ok(s)
    decreases |es|
  {
    es == [] || (Enabled(s, es[0]) && KeepsOrder(s, es[0]) && (StepOk(s, es[0]); Neat(Step(s, es[0]), es[1..])))
  }

  /** No extension of the run stops half-way. */
  ghost predicate NoLeak(s: State, es: seq<Event>)
    requires Ok(s)
    decreases |es|
  {
    es == [] || (Enabled(s, es[0]) && !Leaks(s, es[0]) && (StepOk(s, es[0]); NoLeak(Step(s, es[0]), es[1..])))
  }

  /** No allocation of the run gets more than it asked for. */
  ghost predicate AllExact(s: State, es: seq<Event>)
    requires Ok(s)
    decreases |es|
  {
    es == [] || (Enabled(s, es[0]) && Exact(s, es[0]) && (StepOk(s, es[0]); AllExact(Step(s, es[0]), es[1..])))
  }

  function Allocations(es: seq<Event>): nat {
    if es == [] then 0 else (if es[0].Alloc? then 1 else 0) + Allocations(es[1..])
  }

  /** Every run keeps the tiling, the free list and the accounting law; each allocation adds 0,
      8, 16 or 24 bytes of slack and nothing takes slack away. */
  lemma {:induction false} RunKeeps(s: State, es: seq<Event>, t: State)
    requires Ok(s) && Runs(s, es, t)
    ensures Ok(t)
    ensures s.slack <= t.slack <= s.slack + 24 * Allocations(es) && (t.slack - s.slack) % 8 == 0
    decreases |es|
  {
    hide Ok, Step;
    if es != [] {
      StepOk(s, es[0]);
      RunKeeps(Step(s, es[0]), es[1..], t);
    }
  }

  /** A run goes on with any call that its last state allows. */
  lemma {:induction false} RunGoesOn(s: State, es: seq<Event>, t: State, e: Event)
    requires Ok(s) && Runs(s, es, t) && Ok(t) && Enabled(t, e)
    ensures Runs(s, es + [e], Step(t, e))
    decreases |es|
  {
    hide Ok, Step, Enabled;
    if es == [] {
      StepOk(s, e);
      assert es + [e] == [e] && [e][1..] == [];
    } else {
      StepOk(s, es[0]);
      RunGoesOn(Step(s, es[0]), es[1..], t, e);
      assert (es + [e])[1..] == es[1..] + [e];
    }
  }

  lemma StepTidy(s: State, e: Event)
    requires Ok(s) && Tidy(s) && Enabled(s, e) && KeepsOrder(s, e)
    ensures Tidy(Step(s, e))
  {
    hide Ok, Tidy, Carve, Release, Leak;
    match e
    case Dealloc(a) => ReleaseTidy(s, a);
    case Alloc(size, mapped) =>
      var n := AlignUp8(size);
      var i := FirstFit(s.blocks, s.order, n);
      if size > 0 {
        if i < |s.order| {
          ListedAt(s, i);
          CarveTidy(s, i, n);
        } else if mapped < PagesNeeded(n) {
          LeakTidy(s, mapped);
        } else {
          GrowthTidy(s, n);
        }
      }
  }

  lemma {:induction false} RunTidy(s: State, es: seq<Event>, t: State)
    requires Ok(s) && Tidy(s) && Runs(s, es, t) && Neat(s, es)
    ensures Ok(t) && Tidy(t)
    decreases |es|
  {
    hide Ok, Tidy, Step, Grows, KeepsOrder;
    if es != [] {
      StepOk(s, es[0]);
      StepTidy(s, es[0]);
      RunTidy(Step(s, es[0]), es[1..], t);
    }
  }

  /** kfree frees the one block: every other live block stays, and no other status changes. */
  ghost predicate OnlyFreed(b: Blocks, b': Blocks, a: nat) {
    && (forall c :: c in b && b[c].status == Live && c != a ==> c in b' && b'[c] == b[c])
    && (forall c :: c in b' ==> c in b && b'[c].status == if c == a then Free else b[c].status)
  }

  lemma JoinFrees(b: Blocks, t: State, i: nat, a: nat)
    requires OnlyFreed(b, t.blocks, a) && Ok(t) && i < |t.order|
    ensures t.order[i] in t.blocks && (i + 1 < |t.order| ==> t.order[i + 1] in t.blocks)
    ensures OnlyFreed(b, JoinAt(t, i).blocks, a)
  {
    hide Ok;
    ListedAt(t, i);
    if i + 1 < |t.order| { ListedAt(t, i + 1); }
  }

  lemma ReleaseFrees(s: State, a: nat)
    requires Ok(s) && a in s.blocks && s.blocks[a].status == Live
    ensures OnlyFreed(s.blocks, Release(s, a).blocks, a)
  {
    hide Ok, OnlyFreed;
    var i := Before(s.order, a);
    InsertOk(s, i, a);
    InsertFrees(s, i, a);
    FreedOk(s, i, a);
    JoinFrees(s.blocks, InsertAt(s, i, a), i, a);
    if i > 0 { JoinFrees(s.blocks, Freed(s, a), i - 1, a); }
  }

  lemma InsertFrees(s: State, i: nat, a: nat)
    requires a in s.blocks && i <= |s.order|
    ensures OnlyFreed(s.blocks, InsertAt(s, i, a).blocks, a)
  {
  }

  predicate NothingLive(b: Blocks) {
    forall a :: a in b ==> b[a].status != Live
  }

  predicate NothingLeaked(b: Blocks) {
    forall a :: a in b ==> b[a].status != Leaked
  }

  /** Extensions that stop half-way are the only source of leaked memory. */
  lemma StepLeaksNothing(s: State, e: Event)
    requires Ok(s) && Enabled(s, e) && !Leaks(s, e) && NothingLeaked(s.blocks)
    ensures NothingLeaked(Step(s, e).blocks)
  {
    hide Ok, Carve, Release;
    match e
    case Dealloc(a) => ReleaseFrees(s, a);
    case Alloc(size, mapped) =>
      var n := AlignUp8(size);
      var i := FirstFit(s.blocks, s.order, n);
      if size > 0 {
        if i < |s.order| {
          ListedAt(s, i);
          CarveLeaksNothing(s, i, n);
        } else if mapped >= PagesNeeded(n) {
          GrowOk(s, PagesNeeded(n));
          RetryFits(s, n);
          CarveLeaksNothing(Grow(s, PagesNeeded(n)), 0, n);
        }
      }
  }

  lemma CarveLeaksNothing(s: State, i: nat, n: nat)
    requires Ok(s) && i < |s.order| && n % 8 == 0 && 8 <= n && NothingLeaked(s.blocks)
    requires s.order[i] in s.blocks && n + BLOCK_HEADER_SIZE <= s.blocks[s.order[i]].len
    ensures NothingLeaked(Carve(s, i, n).blocks)
  {
    hide Ok, Carve;
    CarveShape(s, i, n);
  }

  lemma {:induction false} RunLeaksNothing(s: State, es: seq<Event>, t: State)
    requires Ok(s) && Runs(s, es, t) && NoLeak(s, es) && NothingLeaked(s.blocks)
    ensures NothingLeaked(t.blocks)
    decreases |es|
  {
    hide Ok, Step, Leaks, NothingLeaked;
    if es != [] {
      StepOk(s, es[0]);
      StepLeaksNothing(s, es[0]);
      RunLeaksNothing(Step(s, es[0]), es[1..], t);
    }
  }

  /** A run without extensions is one whose extensions all meet the guards. */
  lemma {:induction false} QuietRun(s: State, es: seq<Event>, t: State)
    requires Ok(s) && Runs(s, es, t) && NoGrowth(s, es)
    ensures Neat(s, es) && NoLeak(s, es) && t.end == s.end
    decreases |es|
  {
    hide Ok, Step, Grows;
    if es != [] {
      StepOk(s, es[0]);
      QuietRun(Step(s, es[0]), es[1..], t);
    }
  }

  /** The heap as heap_init leaves it: one free block over `pages` pages. */
  function Fresh(pages: nat): State {
    var end := HEAP_START + pages * FRAME_SIZE;
    State(map[HEAP_START := Block(pages * FRAME_SIZE, Free)], [HEAP_START], end, 0, 0)
  }

  lemma FreshOk(pages: nat)
    requires pages > 0
    ensures Ok(Fresh(pages)) && Tidy(Fresh(pages))
  {
    NoLiveBytes(Fresh(pages).blocks);
    hide LiveBytes;
    FreshTiled(pages);
    hide Tiled;
  }

  lemma FreshTiled(pages: nat)
    requires pages > 0
    ensures Tiled(Fresh(pages).blocks, Fresh(pages).end)
  {
    var none: Blocks := map[];
    assert Tiled(none, HEAP_START);
    hide Tiled;
    WholePages(pages);
    TileAppend(none, HEAP_START, pages * FRAME_SIZE, Free);
  }

  lemma WholePages(pages: nat)
    ensures pages * FRAME_SIZE % 8 == 0 && (pages > 0 ==> pages * FRAME_SIZE >= FRAME_SIZE)
  {
    assert pages * FRAME_SIZE == 8 * (512 * pages);
  }

  /** A tidy heap without live or leaked blocks is one free block. */
  lemma TidyIsWhole(s: State)
    requires Ok(s) && Tidy(s) && s.end > HEAP_START
    requires forall a :: a in s.blocks ==> s.blocks[a].status == Free
    ensures s.blocks == map[HEAP_START := Block(s.end - HEAP_START, Free)] && s.order == [HEAP_START]
  {
    hide LiveBytes, Accounted;
    var b := s.blocks;
    assert Apart(b, HEAP_START) && HEAP_START + b[HEAP_START].len == s.end;
    forall a | a in b ensures a == HEAP_START {
      assert HEAP_START <= a < s.end;
    }
    OneElement(s.order, HEAP_START);
  }

  lemma OneElement(order: seq<nat>, x: nat)
    requires Distinct(order) && forall a: nat :: a in order <==> a == x
    ensures order == [x]
  {
    assert x in order;
    assert 1 < |order| ==> order[0] != order[1];
    forall i | 0 <= i < |order| ensures order[i] == x { assert order[i] in order; }
  }

  /** Full reclamation: as long as every extension is made for an empty list or leaves no remainder,
      the free list stays in address order with nothing left to merge; and when nothing is live and
      no extension stopped half-way, the heap is one free block again, however often it has grown. */
  lemma FullReclamation(pages: nat, es: seq<Event>, t: State)
    requires pages > 0 && Ok(Fresh(pages)) && Runs(Fresh(pages), es, t) && Neat(Fresh(pages), es)
    ensures Tidy(t) && Fresh(pages).end <= t.end
    ensures NothingLive(t.blocks) && NoLeak(Fresh(pages), es) ==>
      t.blocks == map[HEAP_START := Block(t.end - HEAP_START, Free)] && t.order == [HEAP_START]
    ensures NothingLive(t.blocks) && NoGrowth(Fresh(pages), es) ==>
      t.blocks == Fresh(pages).blocks && t.order == Fresh(pages).order && t.end == Fresh(pages).end
  {
    hide Tidy, Runs, NoGrowth, Neat, NoLeak, Ok;
    FreshOk(pages);
    RunTidy(Fresh(pages), es, t);
    RunEnd(Fresh(pages), es, t);
    if NoGrowth(Fresh(pages), es) { QuietRun(Fresh(pages), es, t); }
    if NothingLive(t.blocks) && NoLeak(Fresh(pages), es) {
      RunLeaksNothing(Fresh(pages), es, t);
      TidyIsWhole(t);
    }
  }

  /** The heap never shrinks. */
  lemma {:induction false} RunEnd(s: State, es: seq<Event>, t: State)
    requires Ok(s) && Runs(s, es, t)
    ensures s.end <= t.end
    decreases |es|
  {
    hide Ok, Step;
    if es != [] {
      StepOk(s, es[0]);
      StepEnd(s, es[0]);
      RunEnd(Step(s, es[0]), es[1..], t);
    }
  }

  lemma StepEnd(s: State, e: Event)
    requires Ok(s) && Enabled(s, e)
    ensures s.end <= Step(s, e).end
  {
    hide Ok, Carve, Release;
    StepOk(s, e);
    if Grows(s, e) && e.mapped >= PagesNeeded(AlignUp8(e.size)) {
      var n := AlignUp8(e.size);
      GrowOk(s, PagesNeeded(n));
      RetryFits(s, n);
      CarveOk(Grow(s, PagesNeeded(n)), 0, n);
    }
  }

  // ----- the byte counter -----

  /** The length of the block that an allocation finds. */
  function FoundLen(s: State, e: Event): nat
    requires e.Alloc?
  {
    if Grows(s, e) then PagesNeeded(AlignUp8(e.size)) * FRAME_SIZE
    else if Chosen(s, e) in s.blocks then s.blocks[Chosen(s, e)].len else 0
  }

  /** The call gives nobody more than was asked for: the block it finds has the size of the request,
      or so much more that split_block cuts the rest off. */
  predicate Exact(s: State, e: Event) {
    Succeeds(s, e) ==>
      var n := AlignUp8(e.size);
      FoundLen(s, e) == n + BLOCK_HEADER_SIZE || FoundLen(s, e) >= n + BLOCK_HEADER_SIZE + MIN_BLOCK_SIZE
  }

  lemma CarveSlack(s: State, i: nat, n: nat)
    requires Ok(s) && i < |s.order| && n % 8 == 0 && 8 <= n
    requires s.order[i] in s.blocks && n + BLOCK_HEADER_SIZE <= s.blocks[s.order[i]].len
    ensures var len := s.blocks[s.order[i]].len;
            Carve(s, i, n).slack == s.slack <==> len == n + BLOCK_HEADER_SIZE || len >= n + BLOCK_HEADER_SIZE + MIN_BLOCK_SIZE
  {
    hide Ok;
    SplitOk(s, i, n);
  }

  /** One call adds no slack if and only if it meets that guard. */
  lemma SlackExactly(s: State, e: Event)
    requires Ok(s) && Enabled(s, e)
    ensures Step(s, e).slack == s.slack <==> Exact(s, e)
  {
    hide Ok, Carve, Release;
    StepOk(s, e);
    if Succeeds(s, e) {
      var n := AlignUp8(e.size);
      var i := FirstFit(s.blocks, s.order, n);
      if i < |s.order| {
        ListedAt(s, i);
        CarveSlack(s, i, n);
      } else {
        GrowOk(s, PagesNeeded(n));
        RetryFits(s, n);
        CarveSlack(Grow(s, PagesNeeded(n)), 0, n);
      }
    }
  }

  lemma {:induction false} RunExact(s: State, es: seq<Event>, t: State)
    requires Ok(s) && Runs(s, es, t)
    ensures t.slack == s.slack <==> AllExact(s, es)
    decreases |es|
  {
    hide Ok, Step, Exact;
    if es != [] {
      StepOk(s, es[0]);
      SlackExactly(s, es[0]);
      RunKeeps(Step(s, es[0]), es[1..], t);
      RunExact(Step(s, es[0]), es[1..], t);
    }
  }

  /** The byte counter drifts: with nothing live it shows minus the slack of every allocation ever
      made.  After fewer than 2^59 allocations it is back at zero if and only if none of them got
      more than it asked for. */
  lemma CounterDrifts(pages: nat, es: seq<Event>, t: State)
    requires pages > 0 && Ok(Fresh(pages)) && Runs(Fresh(pages), es, t) && NothingLive(t.blocks)
    ensures t.used == (0 - t.slack) % U64_LIMIT
    ensures Allocations(es) < 0x800_0000_0000_0000 ==> (t.used == 0 <==> AllExact(Fresh(pages), es))
  {
    hide Tidy, Runs, Tiled, Listed, LiveBytes, Allocations, AllExact;
    RunKeeps(Fresh(pages), es, t);
    RunExact(Fresh(pages), es, t);
    NoLiveBytes(t.blocks);
    var n := Allocations(es);
    if n < 0x800_0000_0000_0000 {
      assert t.slack <= 24 * n;
      NegatedRemainder(t.slack);
    }
  }

  lemma NegatedRemainder(x: nat)
    requires x < U64_LIMIT
    ensures (0 - x) % U64_LIMIT == 0 <==> x == 0
  {
    if x > 0 { ModPlus(U64_LIMIT - x, -1); }
  }

  // ----- extensions -----

  /** An extension keeps the order: it fails, the list was empty, or the request uses up the new
      region so that split_block leaves no remainder of it. */
  predicate KeepsOrder(s: State, e: Event) {
    Grows(s, e) && Succeeds(s, e) ==>
      var n := AlignUp8(e.size);
      s.order == [] || PagesNeeded(n) * FRAME_SIZE < n + BLOCK_HEADER_SIZE + MIN_BLOCK_SIZE
  }

  /** An extension that maps some of its pages only. */
  predicate Leaks(s: State, e: Event) {
    Grows(s, e) && !Succeeds(s, e) && e.mapped > 0
  }

  /** What a successful extension and the retry leave. */
  lemma GrowthShape(s: State, n: nat)
    requires Ok(s) && n % 8 == 0 && 8 <= n
    ensures var len := PagesNeeded(n) * FRAME_SIZE;
            var g := Grow(s, PagesNeeded(n));
            var r := s.end + BLOCK_HEADER_SIZE + n;
            && Ok(g) && |g.order| > 0 && g.order[0] == s.end && g.order[0] in g.blocks && n + BLOCK_HEADER_SIZE <= len
            && FirstFit(g.blocks, g.order, n) == 0 && s.end !in s.blocks
            && if len >= n + BLOCK_HEADER_SIZE + MIN_BLOCK_SIZE
               then Carve(g, 0, n).order == [r] + s.order
                    && Carve(g, 0, n).blocks == s.blocks[s.end := Block(BLOCK_HEADER_SIZE + n, Live)][r := Block(len - BLOCK_HEADER_SIZE - n, Free)]
               else Carve(g, 0, n).order == s.order && Carve(g, 0, n).blocks == s.blocks[s.end := Block(len, Live)]
  {
    hide Ok, Carve;
    var g := Grow(s, PagesNeeded(n));
    GrowOk(s, PagesNeeded(n));
    RetryFits(s, n);
    EndIsFree(s);
    assert g.order == [s.end] + s.order;
    CarveShape(g, 0, n);
  }

  /** A successful extension leaves an ordered list ordered if and only if the list was empty or
      the new region leaves no remainder: a remainder goes to the front with the highest address. */
  lemma GrowthKeepsOrder(s: State, e: Event)
    requires Ok(s) && Ascending(s.order) && Grows(s, e) && Succeeds(s, e)
    ensures Ascending(Step(s, e).order) <==> KeepsOrder(s, e)
  {
    hide Ok, Carve;
    var n := AlignUp8(e.size);
    GrowthShape(s, n);
    if s.order != [] && PagesNeeded(n) * FRAME_SIZE >= n + BLOCK_HEADER_SIZE + MIN_BLOCK_SIZE {
      ListedAt(s, 0);
      BelowEnd(s, s.order[0]);
      var order := Step(s, e).order;
      assert order[0] > s.end > order[1];
    }
  }

  lemma BelowEnd(s: State, a: nat)
    requires Ok(s) && a in s.blocks
    ensures a < s.end
  {
  }

  lemma LeakTidy(s: State, pages: nat)
    requires Ok(s) && Tidy(s)
    ensures Tidy(Leak(s, pages))
  {
    hide Ok;
    if pages > 0 {
      EndIsFree(s);
      LooseAppended(s.blocks, s.end, Block(pages * FRAME_SIZE, Leaked));
    }
  }

  lemma LooseAppended(b: Blocks, end: nat, k: Block)
    requires Loose(b) && end !in b && k.status != Free
    ensures Loose(b[end := k])
  {
    var b' := b[end := k];
    forall c | c in b' && b'[c].status == Free ensures Apart(b', c) {
      assert Apart(b, c);
    }
  }

  lemma GrowthTidy(s: State, n: nat)
    requires Ok(s) && Tidy(s) && n % 8 == 0 && 8 <= n
    requires s.order == [] || PagesNeeded(n) * FRAME_SIZE < n + BLOCK_HEADER_SIZE + MIN_BLOCK_SIZE
    ensures var g := Grow(s, PagesNeeded(n));
            && Ok(g) && |g.order| > 0 && g.order[0] in g.blocks && n + BLOCK_HEADER_SIZE <= g.blocks[g.order[0]].len
            && Tidy(Carve(g, 0, n))
  {
    hide Ok, Carve, Loose;
    GrowthShape(s, n);
    var len := PagesNeeded(n) * FRAME_SIZE;
    if len < n + BLOCK_HEADER_SIZE + MIN_BLOCK_SIZE {
      LooseAppended(s.blocks, s.end, Block(len, Live));
    } else {
      LooseFirst(s, BLOCK_HEADER_SIZE + n, len);
    }
  }

  lemma NoneFree(s: State)
    requires Ok(s) && s.order == []
    ensures forall c :: c in s.blocks ==> s.blocks[c].status != Free
  {
    forall c | c in s.blocks ensures s.blocks[c].status != Free { assert c !in s.order; }
  }

  /** The remainder of a region that was appended to a heap without free blocks. */
  lemma LooseFirst(s: State, used: nat, len: nat)
    requires Ok(s) && s.order == [] && 0 < used < len
    ensures Loose(s.blocks[s.end := Block(used, Live)][s.end + used := Block(len - used, Free)])
  {
    hide LiveBytes;
    var b := s.blocks[s.end := Block(used, Live)][s.end + used := Block(len - used, Free)];
    NoneFree(s);
    forall c | c in b && b[c].status == Free ensures Apart(b, c) {
    }
  }

  /** The heap after a request that the first four pages cannot hold, and after its release. */
  const GROWN_END := HEAP_START + 9 * FRAME_SIZE

  function Unmerged(): State {
    var second := HEAP_START + 4 * FRAME_SIZE;
    State(map[HEAP_START := Block(4 * FRAME_SIZE, Free), second := Block(5 * FRAME_SIZE, Free)], [second, HEAP_START], GROWN_END, 0, 0)
  }

  /** With growth full reclamation fails: one request of 16384 bytes and its release leave two
      adjacent free blocks that nothing will ever merge with each other in this order. */
  lemma GrowthDefeatsReclamation()
    ensures Ok(Fresh(4))
    ensures Runs(Fresh(4), [Alloc(16384, 5), Dealloc(HEAP_START + 4 * FRAME_SIZE)], Unmerged())
    ensures NothingLive(Unmerged().blocks) && !Loose(Unmerged().blocks)
  {
    hide Ok, Step, Runs, Unmerged, Grown, Loose, NothingLive;
    var s := Fresh(4);
    var second := HEAP_START + 4 * FRAME_SIZE;
    var es := [Alloc(16384, 5), Dealloc(second)];
    FreshOk(4);
    StepOk(s, es[0]);
    var t := Step(s, es[0]);
    GrownStep(s);
    ReleasedStep(t);
    StepOk(t, es[1]);
    TwoSteps(s, es[0], es[1], t, Unmerged());
    UnmergedIsNotLoose();
  }

  lemma UnmergedIsNotLoose()
    ensures NothingLive(Unmerged().blocks) && !Loose(Unmerged().blocks)
  {
    assert !Apart(Unmerged().blocks, HEAP_START);
  }

  lemma TwoSteps(s: State, e: Event, f: Event, t: State, u: State)
    requires Ok(s) && Enabled(s, e) && Step(s, e) == t && Ok(t) && Enabled(t, f) && Step(t, f) == u && Ok(u)
    ensures Runs(s, [e, f], u)
  {
    hide Ok, Step, Enabled;
    assert [e, f][1..] == [f] && [f][1..] == [];
    assert Runs(u, [], u);
    assert Runs(t, [f], u);
  }

  function Grown(): State {
    var second := HEAP_START + 4 * FRAME_SIZE;
    State(map[HEAP_START := Block(4 * FRAME_SIZE, Free), second := Block(16400, Live), second + 16400 := Block(4080, Free)],
          [second + 16400, HEAP_START], GROWN_END, 16400, 0)
  }

  lemma GrownStep(s: State)
    requires s == Fresh(4) && Ok(s)
    ensures Step(s, Alloc(16384, 5)) == Grown()
  {
    hide Ok;
    FirstFitIs(s.blocks, s.order, 16384, 1);
    var g := Grow(s, 5);
    GrowOk(s, 5);
    assert g.order == [s.end, HEAP_START];
    RetryFits(s, 16384);
    CarveShape(g, 0, 16384);
    assert [s.end, HEAP_START][0 := s.end + 16400] == [s.end + 16400, HEAP_START];
    assert Carve(g, 0, 16384).blocks == Grown().blocks;
  }

  lemma ReleasedStep(t: State)
    requires t == Grown() && Ok(t)
    ensures Enabled(t, Dealloc(HEAP_START + 4 * FRAME_SIZE))
    ensures Step(t, Dealloc(HEAP_START + 4 * FRAME_SIZE)) == Unmerged()
  {
    hide Ok;
    var a := HEAP_START + 4 * FRAME_SIZE;
    BeforeIs(t.order, a, 0);
    var u := InsertAt(t, 0, a);
    FreedOk(t, 0, a);
    assert u.order == [a, a + 16400, HEAP_START];
    assert Removed(u.order, 1) == [a, HEAP_START];
    assert JoinAt(u, 0).blocks == Unmerged().blocks;
  }

  /** The heap after one request that leaves 16 bytes of slack, and after its release. */
  function Drifted(): State { Fresh(4).(used := U64_LIMIT - 16, slack := 16) }

  /** One allocation and its release can leave the byte counter at 2^64 - 16 with nothing live. */
  lemma CounterCanDrift()
    ensures Ok(Fresh(4)) && Runs(Fresh(4), [Alloc(16352, 0), Dealloc(HEAP_START)], Drifted())
    ensures NothingLive(Drifted().blocks) && Drifted().used != 0
  {
    hide Ok, Step, Runs;
    var s := Fresh(4);
    FreshOk(4);
    var e, f := Alloc(16352, 0), Dealloc(HEAP_START);
    StepOk(s, e);
    SlackTaken(s);
    StepOk(Step(s, e), f);
    SlackReturned(Step(s, e));
    TwoSteps(s, e, f, Step(s, e), Drifted());
  }

  function WithSlack(): State {
    State(map[HEAP_START := Block(4 * FRAME_SIZE, Live)], [], HEAP_START + 4 * FRAME_SIZE, 16368, 16)
  }

  lemma SlackTaken(s: State)
    requires s == Fresh(4) && Ok(s)
    ensures Step(s, Alloc(16352, 0)) == WithSlack()
  {
    hide Ok, TakeAt;
    FirstFitIs(s.blocks, s.order, 16352, 0);
    assert SplitAt(s, 0, 16352) == s;
    WholeBlockTaken(s);
  }

  lemma WholeBlockTaken(s: State)
    requires s == Fresh(4)
    ensures TakeAt(s, 0, 16352) == WithSlack()
  {
    assert Removed(s.order, 0) == [];
  }

  lemma SlackReturned(t: State)
    requires t == WithSlack() && Ok(t)
    ensures Enabled(t, Dealloc(HEAP_START)) && Step(t, Dealloc(HEAP_START)) == Drifted()
  {
    hide Ok;
    BeforeIs(t.order, HEAP_START, 0);
    FreedOk(t, 0, HEAP_START);
    assert Inserted(t.order, 0, HEAP_START) == [HEAP_START];
  }
}
