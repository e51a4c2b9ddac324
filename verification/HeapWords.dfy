/** The heap inside the memory it manages: headers and links as 64-bit words (src/mm/heap.c:11-15). */
module HeapWords {
  import opened Pmm
  import opened PageTables
  import opened HeapModel

  const HEAP_MAGIC: Word := 0xDEAD_BEEF_CAFE_BABE

  type Words = seq<Word>

  /** An aligned word of the mapped part of the heap. */
  predicate InHeap(words: Words, x: nat) {
    HEAP_START <= x && x % 8 == 0 && x + 8 <= HEAP_START + 8 * |words|
  }

  function WordAt(words: Words, x: nat): Word {
    if InHeap(words, x) then words[(x - HEAP_START) / 8] else 0
  }

  function SetWord(words: Words, x: nat, w: Word): (r: Words)
    requires InHeap(words, x)
    ensures |r| == |words|
    ensures forall y {:trigger WordAt(r, y)} :: WordAt(r, y) == if y == x then w else WordAt(words, y)
  {
    words[(x - HEAP_START) / 8 := w]
  }

  /** List element i as a pointer: 0 past the end. */
  function At(order: seq<nat>, i: nat): nat {
    if i < |order| then order[i] else 0
  }

  ghost predicate Headers(words: Words, b: Blocks) {
    forall a :: a in b && b[a].status != Leaked ==> HeaderOk(words, b, a)
  }

  ghost predicate Links(words: Words, order: seq<nat>, head: nat) {
    head == At(order, 0) && forall i :: 0 <= i < |order| ==> WordAt(words, order[i] + 16) == At(order, i + 1)
  }

  /** The words hold the headers of the blocks and the links of the free list. */
  ghost predicate Rep(words: Words, s: State, head: nat) {
    && s.end == HEAP_START + 8 * |words| && s.end < U64_LIMIT
    && Headers(words, s.blocks) && Links(words, s.order, head)
  }

  /** Only words in [lo, hi) were written. */
  ghost predicate Touched(words: Words, words': Words, lo: nat, hi: nat) {
    |words'| == |words| && forall x: nat {:trigger WordAt(words', x)} :: x < lo || hi <= x ==> WordAt(words', x) == WordAt(words, x)
  }

  /** Headers and contents of the live blocks, the one at `freed` apart, are as they were. */
  ghost predicate LiveWordsKept(words: Words, words': Words, b: Blocks, freed: nat) {
    forall a, x {:trigger b[a], WordAt(words', x)} ::
      a in b && b[a].status == Live && a != freed && a <= x < a + b[a].len ==> WordAt(words', x) == WordAt(words, x)
  }

  lemma LiveKeptTwice(w0: Words, w1: Words, w2: Words, b0: Blocks, b1: Blocks, freed: nat, freed1: nat)
    requires LiveWordsKept(w0, w1, b0, freed) && LiveWordsKept(w1, w2, b1, freed1)
    requires forall a :: a in b0 && b0[a].status == Live && a != freed ==> a in b1 && b1[a] == b0[a] && a != freed1
    ensures LiveWordsKept(w0, w2, b0, freed)
  {
    hide WordAt;
    forall a, x | a in b0 && b0[a].status == Live && a != freed && a <= x < a + b0[a].len ensures WordAt(w2, x) == WordAt(w0, x) {
      assert b1[a] == b0[a];
      assert WordAt(w1, x) == WordAt(w0, x);
    }
  }

  /** Writes inside one block touch no other. */
  lemma OtherBlocks(words: Words, words': Words, b: Blocks, a: nat)
    requires Disjoint(b) && a in b && Touched(words, words', a, a + b[a].len)
    ensures |words'| == |words| && (b[a].status != Live ==> LiveWordsKept(words, words', b, 0))
    ensures LiveWordsKept(words, words', b, a)
    ensures forall c, x {:trigger b[c], WordAt(words', x)} :: c in b && c != a && c <= x < c + b[c].len ==> WordAt(words', x) == WordAt(words, x)
  {
    hide WordAt;
  }

  predicate HeaderOk(words: Words, b: Blocks, a: nat)
    requires a in b
  {
    && WordAt(words, a) == b[a].len - BLOCK_HEADER_SIZE
    && WordAt(words, a + 8) == if b[a].status == Live then HEAP_MAGIC else 0
  }

  /** Headers after writes inside block a, which may have become several blocks. */
  lemma HeadersAfter(words: Words, words': Words, b: Blocks, b': Blocks, a: nat)
    requires Headers(words, b) && Disjoint(b) && a in b && Touched(words, words', a, a + b[a].len)
    requires forall c :: c in b ==> 24 <= b[c].len
    requires forall c :: c in b' && !(a <= c < a + b[a].len) ==> c in b && b'[c] == b[c]
    requires forall c :: c in b' && a <= c < a + b[a].len && b'[c].status != Leaked ==> HeaderOk(words', b', c)
    ensures Headers(words', b')
  {
    hide WordAt;
    forall c | c in b' && b'[c].status != Leaked ensures HeaderOk(words', b', c) {
      if !(a <= c < a + b[a].len) { assert c < a ==> c + b[c].len <= a; }
    }
  }

  /** Links of list elements outside the touched block. */
  lemma LinksElsewhere(words: Words, words': Words, s: State, head: nat, a: nat, k: nat)
    requires Ok(s) && Rep(words, s, head) && a in s.blocks && Touched(words, words', a, a + s.blocks[a].len)
    requires k < |s.order| && s.order[k] != a
    ensures WordAt(words', s.order[k] + 16) == At(s.order, k + 1)
  {
    hide WordAt, Ok, Headers, At;
    LinkOutside(s, k, a);
  }

  /** The link words of the list are not part of another block. */
  lemma LinkOutside(s: State, k: nat, a: nat)
    requires Ok(s) && k < |s.order| && a in s.blocks && s.order[k] != a
    ensures s.order[k] + 16 < a || a + s.blocks[a].len <= s.order[k] + 16
  {
    hide Ok;
    TilesDisjoint(s);
    ListedAt(s, k);
  }

  lemma ListedBlock(words: Words, s: State, head: nat, i: nat)
    requires Ok(s) && Rep(words, s, head) && i < |s.order|
    ensures var a := s.order[i];
            && a in s.blocks && s.blocks[a].status == Free && 24 <= s.blocks[a].len && a + s.blocks[a].len <= s.end
            && InHeap(words, a) && InHeap(words, a + 8) && InHeap(words, a + 16)
            && WordAt(words, a) == s.blocks[a].len - BLOCK_HEADER_SIZE && WordAt(words, a + 8) == 0
            && WordAt(words, a + 16) == At(s.order, i + 1)
            && a != 0 && a % 8 == 0 && s.blocks[a].len % 8 == 0 && a < U64_LIMIT && HEAP_START <= a
  {
    hide WordAt, Ok;
    ListedAt(s, i);
    BlockInside(s, s.order[i]);
  }

  lemma BlockInside(s: State, a: nat)
    requires Ok(s) && a in s.blocks
    ensures HEAP_START <= a && a % 8 == 0 && s.blocks[a].len % 8 == 0 && 24 <= s.blocks[a].len && a + s.blocks[a].len <= s.end
  {
    hide LiveBytes;
    TileAligned(s.blocks, s.end, a);
  }

  lemma LiveBlock(words: Words, s: State, head: nat, a: nat)
    requires Ok(s) && Rep(words, s, head) && a in s.blocks && s.blocks[a].status == Live
    ensures 24 <= s.blocks[a].len && a + s.blocks[a].len <= s.end && a !in s.order
    ensures InHeap(words, a) && InHeap(words, a + 8) && InHeap(words, a + 16)
    ensures WordAt(words, a) == s.blocks[a].len - BLOCK_HEADER_SIZE && WordAt(words, a + 8) == HEAP_MAGIC
    ensures a != 0 && a % 8 == 0 && s.blocks[a].len % 8 == 0 && a < U64_LIMIT && HEAP_START <= a
  {
    hide WordAt, Ok;
    BlockInside(s, a);
    TilesDisjoint(s);
  }

  /** Linking x in as element i. */
  lemma LinksInserted(words: Words, order: seq<nat>, i: nat, x: nat, head: nat)
    requires i <= |order| && head == if i == 0 then x else At(order, 0)
    requires forall k :: 0 <= k < |order| && k + 1 != i ==> WordAt(words, order[k] + 16) == At(order, k + 1)
    requires WordAt(words, x + 16) == At(order, i) && (i > 0 ==> WordAt(words, order[i - 1] + 16) == x)
    ensures Links(words, Inserted(order, i, x), head)
  {
    hide WordAt;
    var t := Inserted(order, i, x);
    forall j | 0 <= j < |t| ensures WordAt(words, t[j] + 16) == At(t, j + 1) {
      if j < i { assert t[j] == order[j]; }
      if j > i { assert t[j] == order[j - 1]; }
    }
  }

  /** Unlinking element i. */
  lemma LinksRemoved(words: Words, order: seq<nat>, i: nat, head: nat)
    requires i < |order| && head == if i == 0 then At(order, 1) else At(order, 0)
    requires forall k :: 0 <= k < |order| && k != i && k + 1 != i ==> WordAt(words, order[k] + 16) == At(order, k + 1)
    requires i > 0 ==> WordAt(words, order[i - 1] + 16) == At(order, i + 1)
    ensures Links(words, Removed(order, i), head)
  {
    hide WordAt;
    var t := Removed(order, i);
    forall j | 0 <= j < |t| ensures WordAt(words, t[j] + 16) == At(t, j + 1) {
      if j < i { assert t[j] == order[j]; } else { assert t[j] == order[j + 1]; }
    }
  }

  lemma OnceListed(s: State, i: nat, k: nat)
    requires Ok(s) && i < |s.order| && k < |s.order| && i != k
    ensures s.order[i] != s.order[k]
  {
    hide Tiled;
  }

  lemma HeadIs(words: Words, s: State, head: nat)
    requires Rep(words, s, head)
    ensures head == At(s.order, 0)
  {
  }

  /** split_block's five stores. */
  lemma SplitRep(words: Words, words': Words, s: State, head: nat, i: nat, n: nat)
    requires Ok(s) && Rep(words, s, head) && i < |s.order| && s.order[i] in s.blocks && n % 8 == 0 && 8 <= n
    requires s.blocks[s.order[i]].len >= n + BLOCK_HEADER_SIZE + MIN_BLOCK_SIZE
    requires var a := s.order[i];
             var r := a + BLOCK_HEADER_SIZE + n;
             && Touched(words, words', a, a + s.blocks[a].len)
             && WordAt(words', a) == n && WordAt(words', a + 8) == 0 && WordAt(words', a + 16) == r
             && WordAt(words', r) == s.blocks[a].len - n - 2 * BLOCK_HEADER_SIZE
             && WordAt(words', r + 8) == 0 && WordAt(words', r + 16) == At(s.order, i + 1)
    ensures Rep(words', SplitAt(s, i, n), head) && LiveWordsKept(words, words', s.blocks, 0)
  {
    hide WordAt, InHeap, Touched, Headers, Ok, Links, Inserted, LiveWordsKept, At;
    TilesDisjoint(s);
    hide Disjoint, Listed;
    var a := s.order[i];
    ListedAt(s, i);
    OtherBlocks(words, words', s.blocks, a);
    SplitHeaders(words, words', s, i, n);
    HeadersAfter(words, words', s.blocks, SplitAt(s, i, n).blocks, a);
    SplitLinks(words, words', s, head, i, a + BLOCK_HEADER_SIZE + n);
  }

  /** The two headers inside the block that was split. */
  lemma SplitHeaders(words: Words, words': Words, s: State, i: nat, n: nat)
    requires i < |s.order| && s.order[i] in s.blocks
    requires s.blocks[s.order[i]].len >= n + BLOCK_HEADER_SIZE + MIN_BLOCK_SIZE
    requires forall c :: c in s.blocks && c != s.order[i] ==> !(s.order[i] <= c < s.order[i] + s.blocks[s.order[i]].len)
    requires var a := s.order[i];
             var r := a + BLOCK_HEADER_SIZE + n;
             && WordAt(words', a) == n && WordAt(words', a + 8) == 0
             && WordAt(words', r) == s.blocks[a].len - n - 2 * BLOCK_HEADER_SIZE && WordAt(words', r + 8) == 0
    ensures var a, b := s.order[i], SplitAt(s, i, n).blocks;
            && (forall c :: c in b && !(a <= c < a + s.blocks[a].len) ==> c in s.blocks && b[c] == s.blocks[c])
            && (forall c :: c in b && a <= c < a + s.blocks[a].len ==> HeaderOk(words', b, c))
  {
    hide WordAt;
  }

  lemma SplitLinks(words: Words, words': Words, s: State, head: nat, i: nat, r: nat)
    requires Ok(s) && Rep(words, s, head) && i < |s.order| && s.order[i] in s.blocks
    requires var a := s.order[i];
             && Touched(words, words', a, a + s.blocks[a].len)
             && WordAt(words', a + 16) == r && WordAt(words', r + 16) == At(s.order, i + 1)
    ensures Links(words', Inserted(s.order, i + 1, r), head)
  {
    hide WordAt, Touched, Headers, Ok, Inserted, Links, At;
    forall k | 0 <= k < |s.order| && k != i ensures WordAt(words', s.order[k] + 16) == At(s.order, k + 1) {
      OnceListed(s, i, k);
      LinksElsewhere(words, words', s, head, s.order[i], k);
    }
    assert head == At(s.order, 0) by { HeadIs(words, s, head); }
    LinksInserted(words', s.order, i + 1, r, head);
  }

  /** One store of w at x. */
  ghost predicate Wrote(words: Words, words': Words, x: nat, w: Word) {
    |words'| == |words| && forall y: nat {:trigger WordAt(words', y)} :: WordAt(words', y) == if y == x then w else WordAt(words, y)
  }

  lemma WroteInside(words: Words, words': Words, x: nat, w: Word, lo: nat, hi: nat)
    requires Wrote(words, words', x, w) && lo <= x < hi
    ensures Touched(words, words', lo, hi) && WordAt(words', x) == w
  {
    hide WordAt;
  }

  lemma TouchedTwice(w0: Words, w1: Words, w2: Words, lo: nat, hi: nat)
    requires Touched(w0, w1, lo, hi) && Touched(w1, w2, lo, hi)
    ensures Touched(w0, w2, lo, hi)
  {
    hide WordAt;
    forall x: nat | x < lo || hi <= x ensures WordAt(w2, x) == WordAt(w0, x) {
      assert WordAt(w1, x) == WordAt(w0, x);
    }
  }

  /** Rewriting the link of a list element touches no header and no live block. */
  lemma LinkWritten(words: Words, words': Words, s: State, head: nat, k: nat, w: Word)
    requires Ok(s) && Rep(words, s, head) && k < |s.order| && Wrote(words, words', s.order[k] + 16, w)
    ensures Headers(words', s.blocks) && LiveWordsKept(words, words', s.blocks, 0)
  {
    hide WordAt, Ok, Touched, Headers, LiveWordsKept, Links;
    TilesDisjoint(s);
    hide Listed, Disjoint;
    ListedAt(s, k);
    var a := s.order[k];
    WroteInside(words, words', a + 16, w, a, a + s.blocks[a].len);
    OtherBlocks(words, words', s.blocks, a);
    HeaderSize(words, s.blocks, a);
    HeadersAfter(words, words', s.blocks, s.blocks, a);
  }

  /** The stores that take element i off the list and mark it. */
  lemma TakeRep(words: Words, mid: Words, words': Words, s: State, head: nat, head': nat, i: nat, n: nat)
    requires Ok(s) && Rep(words, s, head) && i < |s.order| && s.order[i] in s.blocks && n + BLOCK_HEADER_SIZE <= s.blocks[s.order[i]].len
    requires At(s.order, i + 1) < U64_LIMIT
    requires if i > 0 then Wrote(words, mid, s.order[i - 1] + 16, At(s.order, i + 1)) && head' == head
             else mid == words && head' == At(s.order, 1)
    requires Wrote(mid, words', s.order[i] + 8, HEAP_MAGIC)
    ensures Rep(words', TakeAt(s, i, n), head') && LiveWordsKept(words, words', s.blocks, 0)
  {
    hide WordAt, Ok, Touched, Headers, Links, LiveWordsKept, Removed;
    var a := s.order[i];
    var t := TakeAt(s, i, n);
    assert Headers(mid, s.blocks) && LiveWordsKept(words, mid, s.blocks, 0) by {
      if i > 0 { LinkWritten(words, mid, s, head, i - 1, At(s.order, i + 1)); } else { NothingWritten(words, s.blocks); }
    }
    TilesDisjoint(s);
    hide Listed, Disjoint;
    ListedAt(s, i);
    WroteInside(mid, words', a + 8, HEAP_MAGIC, a, a + s.blocks[a].len);
    OtherBlocks(mid, words', s.blocks, a);
    HeaderSize(mid, s.blocks, a);
    HeadersAfter(mid, words', s.blocks, t.blocks, a);
    LiveKeptTwice(words, mid, words', s.blocks, s.blocks, 0, 0);
    TakeLinks(words, mid, words', s, head, head', i);
  }

  lemma HeaderSize(words: Words, b: Blocks, a: nat)
    requires Headers(words, b) && a in b && b[a].status != Leaked
    ensures HeaderOk(words, b, a)
  {
  }

  lemma NothingWritten(words: Words, b: Blocks)
    ensures LiveWordsKept(words, words, b, 0)
  {
  }

  lemma TakeLinks(words: Words, mid: Words, words': Words, s: State, head: nat, head': nat, i: nat)
    requires Ok(s) && Rep(words, s, head) && i < |s.order| && s.order[i] in s.blocks
    requires At(s.order, i + 1) < U64_LIMIT
    requires if i > 0 then Wrote(words, mid, s.order[i - 1] + 16, At(s.order, i + 1)) && head' == head
             else mid == words && head' == At(s.order, 1)
    requires Wrote(mid, words', s.order[i] + 8, HEAP_MAGIC)
    ensures Links(words', Removed(s.order, i), head')
  {
    hide WordAt, Ok, Headers, Removed, At;
    ListedBlock(words, s, head, i);
    HeadIs(words, s, head);
    forall k | 0 <= k < |s.order| && k != i
      ensures WordAt(words', s.order[k] + 16) == if k + 1 == i then At(s.order, i + 1) else At(s.order, k + 1)
    {
      OnceListed(s, i, k);
      LinkOutside(s, k, s.order[i]);
      if i > 0 && k + 1 != i { OnceListed(s, i - 1, k); }
    }
    LinksRemoved(words', s.order, i, head');
  }

  /** The stores of the first half of kfree, up to the insertion. */
  lemma InsertRep(words: Words, m1: Words, m2: Words, words': Words, s: State, head: nat, head': nat, i: nat, a: nat)
    requires Ok(s) && Rep(words, s, head) && i <= |s.order| && a in s.blocks && s.blocks[a].status == Live
    requires Wrote(words, m1, a + 8, 0) && At(s.order, i) < U64_LIMIT && a < U64_LIMIT
    requires Wrote(m1, m2, a + 16, At(s.order, i))
    requires if i > 0 then Wrote(m2, words', s.order[i - 1] + 16, a) && head' == head else words' == m2 && head' == a
    ensures Rep(words', InsertAt(s, i, a), head') && LiveWordsKept(words, words', s.blocks, a)
    ensures WordAt(words', a + 8) == 0
  {
    hide WordAt, Ok, Touched, Headers, Links, LiveWordsKept, Inserted, At;
    var t := InsertAt(s, i, a);
    BlockInside(s, a);
    WroteInside(words, m1, a + 8, 0, a, a + s.blocks[a].len);
    WroteInside(m1, m2, a + 16, At(s.order, i), a, a + s.blocks[a].len);
    TouchedTwice(words, m1, m2, a, a + s.blocks[a].len);
    TilesDisjoint(s);
    hide Listed, Disjoint;
    OtherBlocks(words, m2, s.blocks, a);
    HeaderSize(words, s.blocks, a);
    HeadersAfter(words, m2, s.blocks, t.blocks, a);
    InsertLinks(words, m1, m2, words', s, head, head', i, a);
    InsertHeaders(words, m2, words', s, t.blocks, i, a);
  }

  lemma InsertHeaders(words: Words, m2: Words, words': Words, s: State, b': Blocks, i: nat, a: nat)
    requires Ok(s) && i <= |s.order| && a in s.blocks && s.blocks[a].status == Live && a < U64_LIMIT
    requires b' == s.blocks[a := s.blocks[a].(status := Free)]
    requires Headers(m2, b') && LiveWordsKept(words, m2, s.blocks, a)
    requires if i > 0 then Wrote(m2, words', s.order[i - 1] + 16, a) else words' == m2
    ensures Headers(words', b') && LiveWordsKept(words, words', s.blocks, a) && WordAt(words', a + 8) == 0
  {
    hide WordAt, Ok, Touched, Headers, LiveWordsKept;
    InsertOk(s, i, a);
    TilesDisjoint(InsertAt(s, i, a));
    hide Listed, Disjoint, InsertAt;
    HeaderSize(m2, b', a);
    if i > 0 {
      var p := s.order[i - 1];
      ListedAt(s, i - 1);
      assert p != a;
      LinkOutside(s, i - 1, a);
      HeaderSize(m2, b', p);
      WroteInside(m2, words', p + 16, a, p, p + b'[p].len);
      OtherBlocks(m2, words', b', p);
      HeadersAfter(m2, words', b', b', p);
      forall c | c in s.blocks ensures c != 0 { BlockInside(s, c); }
      LiveKeptTwice(words, m2, words', s.blocks, b', a, 0);
    }
  }

  lemma InsertLinks(words: Words, m1: Words, m2: Words, words': Words, s: State, head: nat, head': nat, i: nat, a: nat)
    requires Ok(s) && Rep(words, s, head) && i <= |s.order| && a in s.blocks && s.blocks[a].status == Live
    requires Wrote(words, m1, a + 8, 0) && At(s.order, i) < U64_LIMIT && a < U64_LIMIT
    requires Wrote(m1, m2, a + 16, At(s.order, i))
    requires if i > 0 then Wrote(m2, words', s.order[i - 1] + 16, a) && head' == head else words' == m2 && head' == a
    ensures Links(words', Inserted(s.order, i, a), head')
  {
    hide WordAt, Ok, Headers, Inserted, At;
    HeadIs(words, s, head);
    BlockInside(s, a);
    forall k | 0 <= k < |s.order| ensures s.order[k] != a && WordAt(m2, s.order[k] + 16) == At(s.order, k + 1) {
      ListedAt(s, k);
      LinkOutside(s, k, a);
    }
    forall k | 0 <= k < |s.order| && k + 1 != i ensures WordAt(words', s.order[k] + 16) == At(s.order, k + 1) {
      if i > 0 { OnceListed(s, i - 1, k); }
    }
    LinksInserted(words', s.order, i, a, head');
  }

  /** The two stores of a merge. */
  lemma JoinRep(words: Words, mid: Words, words': Words, s: State, head: nat, i: nat)
    requires Ok(s) && Rep(words, s, head) && i + 1 < |s.order| && s.order[i] in s.blocks && s.order[i + 1] in s.blocks
    requires s.order[i] + s.blocks[s.order[i]].len == s.order[i + 1]
    requires var len := s.blocks[s.order[i]].len + s.blocks[s.order[i + 1]].len;
             && 16 <= len < U64_LIMIT && At(s.order, i + 2) < U64_LIMIT
             && Wrote(words, mid, s.order[i], len - BLOCK_HEADER_SIZE)
             && Wrote(mid, words', s.order[i] + 16, At(s.order, i + 2))
    ensures Rep(words', JoinAt(s, i), head) && LiveWordsKept(words, words', s.blocks, 0)
  {
    hide WordAt, Ok, Touched, Headers, Links, LiveWordsKept, Removed, At;
    var a := s.order[i];
    var len := s.blocks[a].len;
    ListedAt(s, i);
    ListedAt(s, i + 1);
    BlockInside(s, a);
    WroteInside(words, mid, a, len + s.blocks[a + len].len - BLOCK_HEADER_SIZE, a, a + len);
    WroteInside(mid, words', a + 16, At(s.order, i + 2), a, a + len);
    TouchedTwice(words, mid, words', a, a + len);
    TilesDisjoint(s);
    hide Listed, Disjoint;
    OtherBlocks(words, words', s.blocks, a);
    HeaderSize(words, s.blocks, a);
    HeadersAfter(words, words', s.blocks, JoinAt(s, i).blocks, a);
    JoinLinks(words, words', s, head, i);
  }

  lemma JoinLinks(words: Words, words': Words, s: State, head: nat, i: nat)
    requires Ok(s) && Rep(words, s, head) && i + 1 < |s.order| && s.order[i] in s.blocks
    requires Touched(words, words', s.order[i], s.order[i] + s.blocks[s.order[i]].len)
    requires WordAt(words', s.order[i] + 16) == At(s.order, i + 2)
    ensures Links(words', Removed(s.order, i + 1), head)
  {
    hide WordAt, Ok, Headers, Removed, At;
    HeadIs(words, s, head);
    forall k | 0 <= k < |s.order| && k != i ensures WordAt(words', s.order[k] + 16) == At(s.order, k + 1) {
      OnceListed(s, i, k);
      LinkOutside(s, k, s.order[i]);
    }
    LinksRemoved(words', s.order, i + 1, head);
  }

  /** The heap got longer, and nothing below its old end was written. */
  ghost predicate Longer(words: Words, words': Words, pages: nat) {
    && |words'| == |words| + 512 * pages
    && forall x: nat {:trigger WordAt(words', x)} :: x < HEAP_START + 8 * |words| ==> WordAt(words', x) == WordAt(words, x)
  }

  lemma LongerKeeps(words: Words, words': Words, s: State, head: nat, pages: nat)
    requires Ok(s) && Rep(words, s, head) && Longer(words, words', pages)
    ensures Headers(words', s.blocks) && LiveWordsKept(words, words', s.blocks, 0)
    ensures forall k :: 0 <= k < |s.order| ==> WordAt(words', s.order[k] + 16) == At(s.order, k + 1)
  {
    hide WordAt, Ok, At;
    forall a | a in s.blocks ensures 24 <= s.blocks[a].len && a + s.blocks[a].len <= s.end { BlockInside(s, a); }
    forall k | 0 <= k < |s.order| ensures s.order[k] in s.blocks { ListedAt(s, k); }
  }

  lemma LeakRep(words: Words, words': Words, s: State, head: nat, pages: nat)
    requires Ok(s) && Rep(words, s, head) && Longer(words, words', pages) && s.end + pages * FRAME_SIZE < U64_LIMIT
    ensures Rep(words', Leak(s, pages), head) && LiveWordsKept(words, words', s.blocks, 0)
  {
    hide WordAt, Ok, At;
    LongerKeeps(words, words', s, head, pages);
    hide LiveWordsKept;
    HeadIs(words, s, head);
  }

  /** The new block at the old end becomes the head of the list. */
  lemma GrowRep(words: Words, words': Words, s: State, head: nat, pages: nat)
    requires Ok(s) && Rep(words, s, head) && Longer(words, words', pages) && pages > 0 && s.end + pages * FRAME_SIZE < U64_LIMIT
    requires WordAt(words', s.end) == pages * FRAME_SIZE - BLOCK_HEADER_SIZE
    requires WordAt(words', s.end + 8) == 0 && WordAt(words', s.end + 16) == head
    ensures Rep(words', Grow(s, pages), s.end) && LiveWordsKept(words, words', s.blocks, 0)
  {
    hide WordAt, Ok, At, Inserted;
    LongerKeeps(words, words', s, head, pages);
    hide LiveWordsKept;
    HeadIs(words, s, head);
    LinksInserted(words', s.order, 0, s.end, s.end);
  }
}
