/**
 The memory pool of the MSVC demangler: a list of large blocks, each starting with a link to the next, out of which
 regions are cut, and the C strings and string tables stored in those regions.
 */
module UndnamePool {

  // sizeof(void*) on a 64-bit machine
  const WORD := 8
  const BLOCK_SIZE := 1024
  const AVAIL_SIZE := 1016
  const UNSIGNED_LIMIT := 0x1_0000_0000

  const NUL := '\0'

  /** What an address holds: a byte, or the first byte of a pointer. */
  datatype Cell = Byte(value: char) | Word(pointer: nat)

  /** Addresses that were never written are absent; 0 is NULL. */
  type Memory = map<nat, Cell>

  datatype Region = Region(start: nat, length: nat) {
    predicate Apart(other: Region) {
      start + length <= other.start || other.start + other.length <= start
    }

    predicate Holds(address: nat) {
      start <= address < start + length
    }
  }

  function PointerAt(memory: Memory, address: nat): nat {
    if address in memory && memory[address].Word? then memory[address].pointer else 0
  }

  predicate Reads(memory: Memory, p: nat, i: nat, c: char) {
    (p + i) in memory && memory[p + i] == Byte(c)
  }

  /** The bytes from p on are those of the text. */
  ghost predicate Spells(memory: Memory, p: nat, text: string) {
    forall i :: 0 <= i < |text| ==> Reads(memory, p, i, text[i])
  }

  /** memcpy of a text to p. */
  function Stored(memory: Memory, p: nat, text: string): (memory': Memory)
    ensures Spells(memory', p, text)
    ensures SameOutside(memory, memory', Region(p, |text|))
  {
    if text == [] then memory
    else
      var n := |text| - 1;
      assert forall a: nat :: !Region(p, |text|).Holds(a) ==> !Region(p, n).Holds(a);
      Stored(memory, p, text[..n])[p + n := Byte(text[n])]
  }

  // ---- The pool

  /** The region lies in the block, past its link word. */
  predicate Inside(r: Region, b: Region) {
    b.start + WORD <= r.start && r.start + r.length <= b.start + b.length
  }

  ghost predicate AllApart(rs: seq<Region>) {
    forall i, j :: 0 <= i < j < |rs| ==> rs[i].Apart(rs[j])
  }

  /** The blocks, newest first, hang together from the head of the list. */
  ghost predicate Linked(memory: Memory, head: nat, blocks: seq<Region>) {
    && head == First(blocks)
    && (forall i :: 0 <= i < |blocks| ==> blocks[i].start != 0 && PointerAt(memory, blocks[i].start) == First(blocks[i + 1..]))
  }

  function First(blocks: seq<Region>): nat {
    if blocks == [] then 0 else blocks[0].start
  }

  ghost predicate InBlocks(r: Region, blocks: seq<Region>) {
    exists k :: 0 <= k < |blocks| && Inside(r, blocks[k])
  }

  /** The last avail bytes of the newest block, free for the next regions. */
  function Tail(blocks: seq<Region>, avail: nat): Region
    requires blocks != [] && avail <= AVAIL_SIZE
  {
    Region(blocks[0].start + BLOCK_SIZE - avail, avail)
  }

  /** Blocks are apart and at least BLOCK_SIZE long; regions are apart, inside of blocks and outside of the tail. */
  ghost predicate Pool(memory: Memory, head: nat, avail: nat, blocks: seq<Region>, regions: set<Region>) {
    && Linked(memory, head, blocks)
    && AllApart(blocks)
    && (forall b <- blocks :: b.length >= BLOCK_SIZE)
    && (forall r, q :: r in regions && q in regions && r != q ==> r.Apart(q))
    && (forall r <- regions :: r.length > 0 && InBlocks(r, blocks))
    && avail <= AVAIL_SIZE
    && (avail > 0 ==> blocks != [] && forall r <- regions :: r.Apart(Tail(blocks, avail)))
  }

  lemma LinkAdded(memory: Memory, head: nat, blocks: seq<Region>, b: Region)
    requires Linked(memory, head, blocks)
    requires b.start != 0 && forall c <- blocks :: c.start != b.start
    ensures Linked(memory[b.start := Word(head)], b.start, [b] + blocks)
  {
    var memory', blocks' := memory[b.start := Word(head)], [b] + blocks;
    assert blocks'[1..] == blocks;
    forall i | 0 <= i < |blocks'|
      ensures blocks'[i].start != 0 && PointerAt(memory', blocks'[i].start) == First(blocks'[i + 1..])
    {
      if i > 0 {
        assert blocks'[i] == blocks[i - 1] && blocks'[i + 1..] == blocks[i..];
      }
    }
  }

  lemma StillInBlocks(r: Region, blocks: seq<Region>, b: Region)
    requires InBlocks(r, blocks) && forall c <- blocks :: c.Apart(b)
    ensures InBlocks(r, [b] + blocks) && r.Apart(b)
  {
    var k :| 0 <= k < |blocks| && Inside(r, blocks[k]);
    assert ([b] + blocks)[k + 1] == blocks[k] && blocks[k] in blocks && blocks[k].Apart(b);
  }

  lemma ApartAdded(blocks: seq<Region>, b: Region)
    requires AllApart(blocks) && forall c <- blocks :: c.Apart(b)
    ensures AllApart([b] + blocks)
  {
    var blocks' := [b] + blocks;
    assert forall i :: 0 < i < |blocks'| ==> blocks'[i] == blocks[i - 1] && blocks'[i] in blocks;
  }

  /** A new block at the head of the list; nothing else changes. */
  lemma BlockAdded(memory: Memory, head: nat, avail: nat, blocks: seq<Region>, regions: set<Region>, b: Region,
      avail': nat)
    requires Pool(memory, head, avail, blocks, regions)
    requires b.start != 0 && b.length >= BLOCK_SIZE && avail' <= AVAIL_SIZE
    requires forall c <- blocks :: c.Apart(b)
    ensures Pool(memory[b.start := Word(head)], b.start, avail', [b] + blocks, regions)
    ensures SameOver(memory, memory[b.start := Word(head)], regions)
    ensures forall r <- regions :: r.Apart(b)
  {
    hide Linked, InBlocks, AllApart;
    LinkAdded(memory, head, blocks, b);
    ApartAdded(blocks, b);
    assert ([b] + blocks)[0] == b;
    forall r | r in regions ensures InBlocks(r, [b] + blocks) && r.Apart(b) {
      StillInBlocks(r, blocks, b);
    }
    forall r, a: nat | r in regions && r.Holds(a) ensures Same(memory, memory[b.start := Word(head)], a) {
      assert r.Apart(b);
    }
  }

  /** A new region that is inside of a block and apart from the others. */
  lemma RegionAdded(memory: Memory, head: nat, avail: nat, blocks: seq<Region>, regions: set<Region>, r: Region,
      avail': nat)
    requires Pool(memory, head, avail, blocks, regions)
    requires r.length > 0 && InBlocks(r, blocks)
    requires forall q <- regions :: q.Apart(r)
    requires avail' <= avail
    requires avail' > 0 ==> r.Apart(Tail(blocks, avail'))
    ensures Pool(memory, head, avail', blocks, regions + {r})
  {
    if avail' > 0 {
      forall q | q in regions + {r} ensures q.Apart(Tail(blocks, avail')) {
        if q in regions {
          assert q.Apart(Tail(blocks, avail));
        }
      }
    }
  }

  /** The first len bytes of the tail of the newest block become a region. */
  lemma CutFromTail(memory: Memory, head: nat, avail: nat, blocks: seq<Region>, regions: set<Region>, len: nat)
    requires Pool(memory, head, avail, blocks, regions) && 0 < len <= avail
    ensures var r := Region(head + BLOCK_SIZE - avail, len);
            Pool(memory, head, avail - len, blocks, regions + {r}) && forall q <- regions :: q.Apart(r)
  {
    var r := Region(head + BLOCK_SIZE - avail, len);
    assert Inside(r, blocks[0]);
    RegionAdded(memory, head, avail, blocks, regions, r, avail - len);
  }

  /** The whole of a block of its own, past the link, becomes a region. */
  lemma WholeBlock(memory: Memory, head: nat, blocks: seq<Region>, regions: set<Region>, len: nat)
    requires Pool(memory, head, 0, blocks, regions) && len > 0
    requires blocks != [] && blocks[0].length == WORD + len && forall r <- regions :: r.Apart(blocks[0])
    ensures var r := Region(head + WORD, len);
            Pool(memory, head, 0, blocks, regions + {r}) && forall q <- regions :: q.Apart(r)
  {
    var r := Region(head + WORD, len);
    assert Inside(r, blocks[0]);
    RegionAdded(memory, head, 0, blocks, regions, r, 0);
  }

  // ---- Writing into regions

  /** Nothing changed at the addresses of the regions. */
  ghost predicate SameOver(memory: Memory, memory': Memory, regions: set<Region>) {
    forall r, a: nat :: r in regions && r.Holds(a) ==> Same(memory, memory', a)
  }

  ghost predicate Same(memory: Memory, memory': Memory, a: nat) {
    (a in memory <==> a in memory') && (a in memory ==> memory[a] == memory'[a])
  }

  ghost predicate SameOutside(memory: Memory, memory': Memory, r: Region) {
    forall a: nat :: !r.Holds(a) ==> Same(memory, memory', a)
  }

  /** Writing into a region leaves the links of the pool and the contents of the other regions alone. */
  lemma WritesStayInside(memory: Memory, memory': Memory, head: nat, avail: nat, blocks: seq<Region>,
                         regions: set<Region>, r: Region)
    requires Pool(memory, head, avail, blocks, regions) && r in regions && SameOutside(memory, memory', r)
    ensures Pool(memory', head, avail, blocks, regions)
    ensures SameOver(memory, memory', regions - {r})
  {
    var k :| 0 <= k < |blocks| && Inside(r, blocks[k]);
    forall i | 0 <= i < |blocks| ensures PointerAt(memory', blocks[i].start) == First(blocks[i + 1..]) {
      if i < k { assert blocks[i].Apart(blocks[k]); }
      if k < i { assert blocks[k].Apart(blocks[i]); }
      assert !r.Holds(blocks[i].start);
      assert Same(memory, memory', blocks[i].start);
    }
    forall q, a: nat | q in regions - {r} && q.Holds(a) ensures Same(memory, memory', a) {
      assert q.Apart(r);
      assert !r.Holds(a);
    }
  }

  lemma SameOverTrans(m: Memory, m': Memory, m'': Memory, regions: set<Region>, regions': set<Region>)
    requires SameOver(m, m', regions) && SameOver(m', m'', regions') && regions <= regions'
    ensures SameOver(m, m'', regions)
  {
    forall r, a: nat | r in regions && r.Holds(a) ensures Same(m, m'', a) {
      assert Same(m, m', a) && Same(m', m'', a);
    }
  }

  lemma SameOverLess(m: Memory, m': Memory, regions: set<Region>, fewer: set<Region>)
    requires SameOver(m, m', regions) || m == m'
    requires fewer <= regions
    ensures SameOver(m, m', fewer)
  {
  }

  lemma NotHeldTwice(regions: set<Region>, r: Region)
    requires r.length > 0 && forall q <- regions :: q.Apart(r)
    ensures r !in regions
  {
  }

  // ---- Strings and tables of strings

  /** A C string: its bytes and the closing NUL, which fill a region. */
  ghost predicate IsString(memory: Memory, regions: set<Region>, p: nat, text: string) {
    p != 0 && Region(p, |text| + 1) in regions && NUL !in text && Spells(memory, p, text + [NUL])
  }

  /** A table of pointers to strings: a region of its own with room for alloc pointers. */
  ghost predicate IsTable(memory: Memory, regions: set<Region>, elts: nat, alloc: nat, texts: seq<string>) {
    && |texts| <= alloc
    && (alloc > 0 ==> elts != 0 && TableAt(elts, alloc) in regions)
    && (forall i :: 0 <= i < |texts| ==> IsString(memory, regions - {TableAt(elts, alloc)}, Entry(memory, elts, i), texts[i]))
  }

  function TableAt(elts: nat, alloc: nat): Region {
    Region(elts, alloc * WORD)
  }

  function Entry(memory: Memory, elts: nat, i: nat): nat {
    PointerAt(memory, elts + i * WORD)
  }

  lemma WrittenString(memory: Memory, regions: set<Region>, p: nat, text: string)
    requires p != 0 && Region(p, |text| + 1) in regions && NUL !in text && Spells(memory, p, text + [NUL])
    ensures IsString(memory, regions, p, text)
  {
  }

  lemma EntryIsString(memory: Memory, regions: set<Region>, elts: nat, alloc: nat, texts: seq<string>, i: nat)
    requires IsTable(memory, regions, elts, alloc, texts) && i < |texts|
    ensures IsString(memory, regions, Entry(memory, elts, i), texts[i]) && Entry(memory, elts, i) != 0
  {
  }

  /** A string stays the same string whatever is allocated and written elsewhere. */
  lemma StringKept(memory: Memory, memory': Memory, regions: set<Region>, regions': set<Region>, p: nat, text: string)
    requires IsString(memory, regions, p, text) && SameOver(memory, memory', regions) && regions <= regions'
    ensures IsString(memory', regions', p, text)
  {
    var bytes, r := text + [NUL], Region(p, |text| + 1);
    forall i | 0 <= i < |bytes| ensures Reads(memory', p, i, bytes[i]) {
      assert Reads(memory, p, i, bytes[i]);
      assert r.Holds(p + i);
      assert Same(memory, memory', p + i);
    }
  }

  /** So does a table of strings. */
  lemma TableKept(memory: Memory, memory': Memory, regions: set<Region>, regions': set<Region>, elts: nat, alloc: nat,
                  texts: seq<string>)
    requires IsTable(memory, regions, elts, alloc, texts) && SameOver(memory, memory', regions) && regions <= regions'
    ensures IsTable(memory', regions', elts, alloc, texts)
  {
    hide IsString;
    var t := TableAt(elts, alloc);
    forall i | 0 <= i < |texts| ensures IsString(memory', regions' - {t}, Entry(memory', elts, i), texts[i]) {
      assert t.Holds(elts + i * WORD);
      assert Same(memory, memory', elts + i * WORD);
      StringKept(memory, memory', regions - {t}, regions' - {t}, Entry(memory, elts, i), texts[i]);
    }
  }

  // ---- Writing into tables

  /** The first n pointers of one table, copied to another place. */
  function CopiedTable(memory: Memory, from: nat, to: nat, n: nat): (memory': Memory)
    ensures SameOutside(memory, memory', TableAt(to, n))
    ensures TableAt(from, n).Apart(TableAt(to, n)) ==> forall i :: 0 <= i < n ==> Entry(memory', to, i) == Entry(memory, from, i)
  {
    if n == 0 then memory
    else
      var before := CopiedTable(memory, from, to, n - 1);
      var a := to + (n - 1) * WORD;
      assert forall a: nat :: !TableAt(to, n).Holds(a) ==> !TableAt(to, n - 1).Holds(a);
      before[a := Word(Entry(memory, from, n - 1))]
  }

  lemma FirstTable(memory: Memory, regions: set<Region>, elts: nat, alloc: nat)
    requires elts != 0 && TableAt(elts, alloc) in regions
    ensures IsTable(memory, regions, elts, alloc, [])
  {
  }

  /** The texts of a table after its pointers were copied to a new region of twice the size. */
  lemma TableMoved(memory: Memory, memory': Memory, memory'': Memory, regions: set<Region>, regions': set<Region>,
                   elts: nat, alloc: nat, texts: seq<string>, elts': nat)
    requires IsTable(memory, regions, elts, alloc, texts) && alloc > 0
    requires SameOver(memory, memory', regions) && SameOver(memory, memory'', regions)
    requires memory'' == CopiedTable(memory', elts, elts', alloc) && elts' != 0
    requires regions' == regions + {TableAt(elts', alloc * 2)} && TableAt(elts, alloc).Apart(TableAt(elts', alloc * 2))
    requires TableAt(elts', alloc * 2) !in regions
    ensures IsTable(memory'', regions', elts', alloc * 2, texts)
  {
    hide IsString;
    var t, t' := TableAt(elts, alloc), TableAt(elts', alloc * 2);
    forall i | 0 <= i < |texts| ensures IsString(memory'', regions' - {t'}, Entry(memory'', elts', i), texts[i]) {
      assert t.Holds(elts + i * WORD);
      assert Same(memory, memory', elts + i * WORD);
      assert Entry(memory'', elts', i) == Entry(memory', elts, i);
      StringKept(memory, memory'', regions - {t}, regions' - {t'}, Entry(memory, elts, i), texts[i]);
    }
  }

  /** Storing a pointer to a string at the end of a table, or over one of its entries. */
  lemma EntrySet(memory: Memory, regions: set<Region>, elts: nat, alloc: nat, texts: seq<string>, n: nat, p: nat,
      text: string)
    requires IsTable(memory, regions, elts, alloc, texts) && n <= |texts| && n < alloc
    requires IsString(memory, regions - {TableAt(elts, alloc)}, p, text)
    requires forall r, q :: r in regions && q in regions && r != q ==> r.Apart(q)
    ensures var memory' := memory[elts + n * WORD := Word(p)];
            var texts' := if n < |texts| then texts[n := text] else texts + [text];
            SameOutside(memory, memory', TableAt(elts, alloc)) && IsTable(memory', regions, elts, alloc, texts')
  {
    hide IsString;
    var memory' := memory[elts + n * WORD := Word(p)];
    var texts' := if n < |texts| then texts[n := text] else texts + [text];
    var t := TableAt(elts, alloc);
    forall r, a: nat | r in regions - {t} && r.Holds(a) ensures Same(memory, memory', a) {
      assert r.Apart(t);
    }
    forall i | 0 <= i < |texts'| ensures IsString(memory', regions - {t}, Entry(memory', elts, i), texts'[i]) {
      if i == n {
        StringKept(memory, memory', regions - {t}, regions - {t}, p, text);
      } else {
        StringKept(memory, memory', regions - {t}, regions - {t}, Entry(memory, elts, i), texts[i]);
      }
    }
  }
}
