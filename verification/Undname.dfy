/**
 The MSVC demangler's allocator, string tables and two-pass string builders. The system's allocator behind them may
 refuse any request; otherwise it gives out memory apart from all that it gave out before and did not get back.
 */
module Undname {
  import opened UndnamePool
  import opened UndnameText

  datatype Pushed = Done | NoTable | NoString

  /** A growing table of strings; the first max entries stay readable when num is set back. */
  class StrArray {
    var start: nat
    var num: nat
    var max: nat
    var alloc: nat
    var elts: nat
    ghost var texts: seq<string>

    /** The table holds its texts in regions of the pool. */
    ghost predicate Valid(memory: Memory, regions: set<Region>)
      reads this
    {
      && num <= max == |texts| <= alloc && (alloc == 0 ==> elts == 0)
      && IsTable(memory, regions, elts, alloc, texts)
    }

    function Table(): Region
      reads this
    {
      TableAt(elts, alloc)
    }

    constructor ()
      ensures start == 0 && num == 0 && alloc == 0 && elts == 0 && texts == []
      ensures forall memory, regions :: Valid(memory, regions)
    {
      start, num, max, alloc, elts, texts := 0, 0, 0, 0, 0, [];
    }
  }

  class ParsedSymbol {
    // mem_free_ptr is given
    const canFree: bool
    var memory: Memory
    var allocList: nat
    var availInFirst: nat
    // What the system's allocator gave out and did not get back, and the addresses that it got back
    var live: set<Region>
    var freed: seq<nat>
    ghost var blocks: seq<Region>
    ghost var regions: set<Region>

    ghost predicate Valid()
      reads this
    {
      && Pool(memory, allocList, availInFirst, blocks, regions)
      && (forall b <- blocks :: b in live)
      && LiveApart(live)
    }

    constructor (canFree: bool, live: set<Region>)
      requires LiveApart(live)
      ensures Valid() && regions == {} && blocks == [] && freed == []
      ensures this.live == live && this.canFree == canFree
    {
      this.canFree, this.live := canFree, live;
      memory, allocList, availInFirst, freed, blocks, regions := map[], 0, 0, [], [], {};
    }

    // ---- The system's allocator

    method MemAlloc(size: nat) returns (p: nat)
      requires size > 0 && LiveApart(live)
      modifies `live
      ensures LiveApart(live)
      ensures p == 0 ==> live == old(live)
      ensures p != 0 ==> live == old(live) + {Region(p, size)} && forall r <- old(live) :: r.Apart(Region(p, size))
    {
      var q: nat := *;
      if q == 0 || exists r <- live :: !r.Apart(Region(q, size)) {
        return 0;
      }
      live := live + {Region(q, size)};
      return q;
    }

    /** Only what was given out can be given back. */
    method MemFree(p: nat)
      requires exists r <- live :: r.start == p
      modifies `live, `freed
      ensures live == set r <- old(live) | r.start != p
      ensures freed == old(freed) + [p]
    {
      live := set r <- live | r.start != p;
      freed := freed + [p];
    }

    // ---- The pool

    /**
     A region of len bytes, or NULL. Nothing that an earlier region holds changes. A request that fits into the rest
     of the newest block does not fail and takes no new block.
     */
    method UndAlloc(len: nat) returns (p: nat)
      requires Valid() && len < UNSIGNED_LIMIT
      modifies this
      ensures Valid() && freed == old(freed)
      ensures p != 0 && len > 0 ==>
                regions == old(regions) + {Region(p, len)} && forall r <- old(regions) :: r.Apart(Region(p, len))
      ensures p == 0 || len == 0 ==> regions == old(regions)
      ensures p == 0 ==> memory == old(memory) && blocks == old(blocks) && len > old(availInFirst)
      ensures SameOver(old(memory), memory, old(regions))
      ensures len <= old(availInFirst) ==> blocks == old(blocks) && memory == old(memory)
      ensures |blocks| <= |old(blocks)| + 1 && old(live) <= live && live - old(live) <= SetOf(blocks)
    {
      hide Pool;
      PoolFacts(memory, allocList, availInFirst, blocks, regions);
      if len > AVAIL_SIZE {
        // too long for an ordinary block
        p := MemAlloc(WORD + len);
        if p == 0 { return 0; }
        ghost var b := Region(p, WORD + len);
        BlockAdded(memory, allocList, availInFirst, blocks, regions, b, 0);
        memory := memory[p := Word(allocList)];
        allocList := p;
        blocks := [b] + blocks;
        availInFirst := 0;
        p := allocList + WORD;
        WholeBlock(memory, allocList, blocks, regions, len);
        regions := regions + {Region(p, len)};
      } else {
        if len > availInFirst {
          // the rest of the newest block is too short
          p := MemAlloc(BLOCK_SIZE);
          if p == 0 { return 0; }
          ghost var b := Region(p, BLOCK_SIZE);
          BlockAdded(memory, allocList, availInFirst, blocks, regions, b, AVAIL_SIZE);
          memory := memory[p := Word(allocList)];
          allocList := p;
          blocks := [b] + blocks;
          availInFirst := AVAIL_SIZE;
        }
        PoolFacts(memory, allocList, availInFirst, blocks, regions);
        p := allocList + BLOCK_SIZE - availInFirst;
        if len > 0 {
          CutFromTail(memory, allocList, availInFirst, blocks, regions, len);
          regions := regions + {Region(p, len)};
        }
        availInFirst := availInFirst - len;
      }
    }

    /** Gives every block back, each one once, newest first; what others hold stays. */
    method UndFreeAll()
      requires Valid()
      modifies this
      ensures Valid() && allocList == 0 && availInFirst == 0 && blocks == [] && regions == {}
      ensures live == if canFree then old(live) - SetOf(old(blocks)) else old(live)
      ensures freed == old(freed) + if canFree then Bases(old(blocks)) else []
      ensures forall i, j :: 0 <= i < j < |old(blocks)| ==> Bases(old(blocks))[i] != Bases(old(blocks))[j]
    {
      ghost var k := 0;
      BasesDistinct(blocks);
      while allocList != 0
        invariant k <= |old(blocks)|
        invariant memory == old(memory) && Linked(memory, old(allocList), old(blocks)) && allocList == First(old(blocks)[k..])
        invariant live == if canFree then old(live) - SetOf(old(blocks)[..k]) else old(live)
        invariant freed == old(freed) + if canFree then Bases(old(blocks)[..k]) else []
        decreases |old(blocks)| - k
      {
        var next := PointerAt(memory, allocList);
        FreedOnce(old(blocks), old(live), k);
        if canFree {
          MemFree(allocList);
        }
        allocList := next;
        k := k + 1;
      }
      assert old(blocks)[..k] == old(blocks);
      availInFirst := 0;
      blocks, regions := [], {};
    }

    // ---- Strings

    /** Writes a text at p, inside of the region r. */
    method Write(p: nat, text: string, ghost r: Region)
      requires Valid() && r in regions && r.start <= p && p + |text| <= r.start + r.length
      modifies `memory
      ensures Valid() && memory == Stored(old(memory), p, text)
      ensures SameOver(old(memory), memory, regions - {r})
    {
      hide Pool, SameOver;
      WithinRegion(memory, Stored(memory, p, text), Region(p, |text|), r);
      WritesStayInside(memory, Stored(memory, p, text), allocList, availInFirst, blocks, regions, r);
      memory := Stored(memory, p, text);
    }

    method StrLen(p: nat, ghost text: string) returns (n: nat)
      requires IsString(memory, regions, p, text)
      ensures n == |text|
    {
      n := 0;
      assert forall i :: 0 <= i <= |text| ==> Reads(memory, p, i, (text + [NUL])[i]);
      while memory[p + n] != Byte(NUL)
        invariant n <= |text| && Reads(memory, p, n, (text + [NUL])[n])
        decreases |text| - n
      {
        n := n + 1;
      }
    }

    method ReadText(p: nat, n: nat, ghost text: string) returns (s: string)
      requires IsString(memory, regions, p, text) && n <= |text|
      ensures s == text[..n]
    {
      s := "";
      assert forall i :: 0 <= i < |text| ==> Reads(memory, p, i, (text + [NUL])[i]);
      for i := 0 to n
        invariant s == text[..i]
      {
        assert Reads(memory, p, i, (text + [NUL])[i]);
        s := s + [memory[p + i].value];
      }
    }

    // ---- Tables of strings

    /**
     Makes room for one more entry, moving the table to one of twice the size when all its entries were used. Without
     memory for its first table, the table claims room that it does not have.
     */
    method MakeRoom(a: StrArray) returns (ok: bool)
      requires Valid() && a.Valid(memory, regions) && a.alloc * 2 * WORD < UNSIGNED_LIMIT
      modifies this, a
      ensures Valid() && old(regions) <= regions && SameOver(old(memory), memory, old(regions))
      ensures a.start == old(a.start) && a.num == old(a.num) && a.max == old(a.max) && a.texts == old(a.texts)
      ensures ok ==> a.Valid(memory, regions) && a.num < a.alloc && a.elts != 0
      ensures ok ==> a.Table() in regions && (a.Table() == old(a.Table()) || a.Table() !in old(regions))
      ensures !ok ==> memory == old(memory) && regions == old(regions)
      ensures !ok ==> a.elts == old(a.elts) && a.alloc == if old(a.alloc) == 0 then 32 else old(a.alloc)
      ensures !ok ==> (a.Valid(memory, regions) <==> old(a.alloc) != 0)
    {
      hide Pool, IsString;
      ghost var memory0, regions0, alloc0 := memory, regions, a.alloc;
      if a.alloc == 0 {
        a.alloc := 32;
        var ptr := UndAlloc(a.alloc * WORD);
        if ptr == 0 { return false; }
        a.elts := ptr;
        FirstTable(memory, regions, ptr, a.alloc);
        NotHeldTwice(regions0, TableAt(ptr, a.alloc));
      } else if a.max >= a.alloc {
        var ptr := UndAlloc(a.alloc * 2 * WORD);
        if ptr == 0 { return false; }
        ghost var memory1, t := memory, TableAt(ptr, a.alloc * 2);
        NotHeldTwice(regions0, t);
        memory := CopiedTable(memory, a.elts, ptr, a.alloc);
        WithinRegion(memory1, memory, TableAt(ptr, a.alloc), t);
        WritesStayInside(memory1, memory, allocList, availInFirst, blocks, regions, t);
        assert regions - {t} == regions0;
        SameOverTrans(memory0, memory1, memory, regions0, regions0);
        TableMoved(memory0, memory1, memory, regions0, regions, a.elts, a.alloc, a.texts, ptr);
        a.alloc := a.alloc * 2;
        a.elts := ptr;
      } else {
        return true;
      }
      return true;
    }

    /**
     Adds the first len characters of a text, or all of it for -1, to a table. Nothing that a region held changes but
     the table itself.
     */
    method StrArrayPush(text: string, len: int, a: StrArray) returns (result: Pushed)
      requires Valid() && a.Valid(memory, regions)
      requires NUL !in text && -1 <= len <= |text| && |text| + 1 < UNSIGNED_LIMIT && a.alloc * 2 * WORD < UNSIGNED_LIMIT
      modifies this, a
      ensures Valid() && old(regions) <= regions
      ensures SameOver(old(memory), memory, old(regions) - {old(a.Table())})
      ensures result.Done? ==>
                && a.Valid(memory, regions) && a.start == old(a.start) && a.num == old(a.num) + 1
                && a.texts == Placed(old(a.texts), old(a.num), if len == -1 then text else text[..len])
      ensures result.NoTable? ==>
                && memory == old(memory) && regions == old(regions)
                && a.elts == old(a.elts) && a.texts == old(a.texts) && a.num == old(a.num)
                && a.alloc == (if old(a.alloc) == 0 then 32 else old(a.alloc))
                && (a.Valid(memory, regions) <==> old(a.alloc) != 0)
    {
      hide Pool, IsString, SameOver, IsTable;
      ghost var memory0, regions0, table0 := memory, regions, a.Table();
      SameOverLess(memory0, memory0, regions0, {});
      var ok := MakeRoom(a);
      ghost var memory1, regions1, t := memory, regions, a.Table();
      SameOverLess(memory0, memory1, regions0, regions0 - {table0});
      if !ok { return NoTable; }
      var chars := if len == -1 then text else text[..len];
      var p := UndAlloc(|chars| + 1);
      ghost var memory2, regions2, r := memory, regions, Region(p, |chars| + 1);
      SameOverTrans(memory0, memory1, memory2, regions0, regions1);
      if p == 0 {
        SameOverLess(memory0, memory2, regions0, regions0 - {table0});
        return NoString;
      }
      NotHeldTwice(regions1, r);
      Write(p, chars + [NUL], r);
      ghost var memory3 := memory;
      assert regions2 - {r} == regions1;
      SameOverTrans(memory1, memory2, memory3, regions1, regions1);
      TableKept(memory1, memory3, regions1, regions2, a.elts, a.alloc, a.texts);
      WrittenString(memory3, regions2 - {t}, p, chars);
      SameOverTrans(memory0, memory1, memory3, regions0, regions1);
      SetEntry(a, p, chars);
      SameOverLess(memory0, memory3, regions0, regions0 - {table0});
      SameOverLess(memory3, memory, regions2 - {t}, regions0 - {table0});
      SameOverTrans(memory0, memory3, memory, regions0 - {table0}, regions0 - {table0});
      return Done;
    }

    /** Puts a string's address into the next entry of a table. */
    method SetEntry(a: StrArray, p: nat, ghost text: string)
      requires Valid() && a.Valid(memory, regions) && a.num < a.alloc
      requires IsString(memory, regions - {a.Table()}, p, text)
      modifies `memory, a
      ensures Valid() && a.Valid(memory, regions)
      ensures SameOver(old(memory), memory, regions - {old(a.Table())})
      ensures a.start == old(a.start) && a.num == old(a.num) + 1 && a.texts == Placed(old(a.texts), old(a.num), text)
    {
      hide Pool, IsString, SameOver;
      ghost var before := memory;
      PoolFacts(memory, allocList, availInFirst, blocks, regions);
      EntrySet(memory, regions, a.elts, a.alloc, a.texts, a.num, p, text);
      memory := memory[a.elts + a.num * WORD := Word(p)];
      WritesStayInside(before, memory, allocList, availInFirst, blocks, regions, a.Table());
      a.texts := Placed(a.texts, a.num, text);
      a.num := a.num + 1;
      if a.num >= a.max {
        a.max := a.num;
      }
    }

    /** The string at an index counted from the start of the references, which wraps around as an unsigned number. */
    method StrArrayGetRef(cref: StrArray?, idx: nat) returns (p: nat)
      requires cref != null ==> cref.Valid(memory, regions)
      ensures cref == null ==> p == 0
      ensures cref != null ==>
                var i := (cref.start + idx) % UNSIGNED_LIMIT;
                if i < cref.max then IsString(memory, regions, p, cref.texts[i]) else p == 0
    {
      if cref == null { return 0; }
      var i := (cref.start + idx) % UNSIGNED_LIMIT;
      if i >= cref.max { return 0; }
      p := Entry(memory, cref.elts, i);
    }

    // ---- String builders

    /** The first pass of str_printf: the room that the text and its closing NUL need. */
    method Measure(format: string, args: seq<Argument>) returns (len: nat)
      requires Fits(format, args)
      ensures len == |Expand(format, args)| + 1
    {
      hide Fits, Expand, Head, Width, Takes, Piece, Fed;
      ghost var text, whole := "", Expand(format, args);
      ExpandNothing(format, args);
      len := 1;
      var i, k := 0, 0;
      while i < |format|
        invariant i <= |format| && k <= |args| && Rest(whole, text, format, args, i, k) && len == |text| + 1
      {
        RestStep(whole, text, format, args, i, k);
        text := text + Piece(format[i..], args[k..]);
        if format[i] == '%' {
          i := i + 1;
          if i < |format| && format[i] == 's' {
            if args[k].Text? { len := len + |args[k].text|; }
            k := k + 1;
          } else if i < |format| && format[i] == 'c' {
            k := k + 1;
            len := len + 1;
          } else {
            if i >= |format| || format[i] != '%' { i := i - 1; }
            len := len + 1;
          }
        } else {
          len := len + 1;
        }
        i := i + 1;
      }
      RestNothing(whole, text, format, args, k);
    }

    /** A new region holds exactly the text that the format and the arguments stand for, and its closing NUL. */
    method StrPrintf(format: string, args: seq<Argument>) returns (tmp: nat)
      requires Valid() && Fits(format, args) && |Expand(format, args)| + 1 < UNSIGNED_LIMIT
      modifies this
      ensures Valid() && SameOver(old(memory), memory, old(regions))
      ensures tmp == 0 ==> memory == old(memory) && regions == old(regions)
      ensures tmp != 0 ==>
                var r := Region(tmp, |Expand(format, args)| + 1);
                && r !in old(regions) && regions == old(regions) + {r}
                && Spells(memory, tmp, Expand(format, args) + [NUL])
    {
      hide Fits, Expand, Head, Pool, SameOver, Spells;
      var len := Measure(format, args);
      ghost var memory0, regions0 := memory, regions;
      tmp := UndAlloc(len);
      if tmp == 0 { return 0; }
      ghost var r := Region(tmp, len);
      NotHeldTwice(regions0, r);
      Print(tmp, format, args, r, memory0, regions0);
    }

    /** The second pass: the writing of the text into the region r at tmp. */
    method Print(tmp: nat, format: string, args: seq<Argument>, ghost r: Region, ghost memory0: Memory,
                 ghost regions0: set<Region>)
      requires Valid() && regions == regions0 + {r} && r !in regions0 && SameOver(memory0, memory, regions0)
      requires Fits(format, args) && r == Region(tmp, |Expand(format, args)| + 1)
      modifies `memory
      ensures Valid() && SameOver(memory0, memory, regions0)
      ensures Spells(memory, tmp, Expand(format, args) + [NUL])
    {
      hide Fits, Expand, Head, Pool, SameOver, Spells, Width, Takes, Piece, Fed;
      ghost var text, whole := "", Expand(format, args);
      ExpandNothing(format, args);
      SpelledNothing(memory, tmp);
      var p, i, k := tmp, 0, 0;
      while i < |format|
        invariant i <= |format| && k <= |args| && Rest(whole, text, format, args, i, k) && p == tmp + |text|
        invariant Valid() && Spells(memory, tmp, text) && SameOver(memory0, memory, regions0)
      {
        RestStep(whole, text, format, args, i, k);
        ghost var piece := Piece(format[i..], args[k..]);
        if format[i] == '%' {
          i := i + 1;
          if i < |format| && format[i] == 's' {
            if args[k].Text? {
              Append(tmp, p - tmp, args[k].text, r, text, memory0, regions0);
              p := p + |args[k].text|;
            } else {
              assert text + piece == text;
            }
            k := k + 1;
          } else if i < |format| && format[i] == 'c' {
            Append(tmp, p - tmp, [args[k].c], r, text, memory0, regions0);
            p := p + 1;
            k := k + 1;
          } else {
            if i >= |format| || format[i] != '%' { i := i - 1; }
            Append(tmp, p - tmp, ['%'], r, text, memory0, regions0);
            p := p + 1;
          }
        } else {
          Append(tmp, p - tmp, [format[i]], r, text, memory0, regions0);
          p := p + 1;
        }
        text := text + piece;
        i := i + 1;
      }
      RestNothing(whole, text, format, args, k);
      Append(tmp, p - tmp, [NUL], r, text, memory0, regions0);
    }

    /**
     The names of a stack of strings from start on, last first and scoped by "::". An empty slice asks for as many
     bytes as an unsigned number can say.
     */
    method GetClassString(a: StrArray, start: nat) returns (ret: nat)
      requires Valid() && a.Valid(memory, regions)
      requires start <= a.num ==> Lengths(a.texts[start..a.num]) < UNSIGNED_LIMIT
      modifies this
      ensures Valid() && a.Valid(memory, regions) && SameOver(old(memory), memory, old(regions))
      ensures ret == 0 ==> memory == old(memory) && regions == old(regions)
      ensures ret != 0 ==>
                var names := if start <= a.num then a.texts[start..a.num] else [];
                var r := Region(ret, if names == [] then UNSIGNED_LIMIT - 1 else |Scoped(names)| + 1);
                && r !in old(regions) && regions == old(regions) + {r}
                && Spells(memory, ret, Scoped(names) + [NUL])
    {
      hide Pool, SameOver, Spells, IsString, Scoped, Lengths;
      ghost var memory0, regions0 := memory, regions;
      ghost var names := if start <= a.num then a.texts[start..a.num] else [];
      ScopedNothing();
      var len, i := 0, start;
      while i < a.num
        invariant start <= i && (start <= a.num ==> i <= a.num)
        invariant len == if start <= a.num then Lengths(names[..i - start]) else 0
        modifies {}
      {
        EntryIsString(memory, regions, a.elts, a.alloc, a.texts, i);
        var sz := StrLen(Entry(memory, a.elts, i), a.texts[i]);
        ScopedNext(names, i - start);
        len := len + 2 + sz;
        i := i + 1;
      }
      assert names[..|names|] == names;
      assert len == Lengths(names);
      if names != [] { ScopedLength(names); }
      ret := UndAlloc((len - 1) % UNSIGNED_LIMIT);
      TableKept(memory0, memory, regions0, regions, a.elts, a.alloc, a.texts);
      if ret == 0 { return 0; }
      ghost var r := Region(ret, (len - 1) % UNSIGNED_LIMIT);
      NotHeldTwice(regions0, r);
      WriteScoped(ret, a, start, names, r, memory0, regions0);
    }

    /** The second pass: the names and what separates them, into the region r at ret. */
    method WriteScoped(ret: nat, a: StrArray, start: nat, ghost names: seq<string>, ghost r: Region,
                       ghost memory0: Memory, ghost regions0: set<Region>)
      requires Valid() && regions == regions0 + {r} && r !in regions0 && SameOver(memory0, memory, regions0)
      requires a.Valid(memory0, regions0) && names == if start <= a.num then a.texts[start..a.num] else []
      requires r.start == ret && |Scoped(names)| < r.length
      modifies `memory
      ensures Valid() && a.Valid(memory, regions) && SameOver(memory0, memory, regions0)
      ensures Spells(memory, ret, Scoped(names) + [NUL])
    {
      hide Pool, SameOver, Spells, IsString, IsTable, Scoped;
      ghost var text: string, whole := "", Scoped(names);
      SpelledNothing(memory, ret);
      TableKept(memory0, memory, regions0, regions, a.elts, a.alloc, a.texts);
      ScopedNothing();
      var len, i := 0, a.num;
      assert names[..|names|] == names;
      assert text + whole == whole;
      while i > start
        invariant start <= a.num ==> start <= i <= a.num
        invariant start > a.num ==> i == a.num
        invariant ScopedRest(whole, text, names, if i > start then i - start else 0) && len == |text|
        invariant Valid() && Spells(memory, ret, text)
        invariant SameOver(memory0, memory, regions0) && a.Valid(memory, regions)
      {
        i := i - 1;
        ScopedStep(whole, text, names, i - start + 1);
        EntryIsString(memory, regions, a.elts, a.alloc, a.texts, i);
        var sz := StrLen(Entry(memory, a.elts, i), a.texts[i]);
        var name := ReadText(Entry(memory, a.elts, i), sz, a.texts[i]);
        Append(ret, len, name, r, text, memory0, regions0);
        len := len + sz;
        if i > start {
          Append(ret, len, "::", r, text + name, memory0, regions0);
          len := len + 2;
        } else {
          assert text + name + "" == text + name;
        }
        text := text + name + (if i > start then "::" else "");
        TableKept(memory0, memory, regions0, regions, a.elts, a.alloc, a.texts);
      }
      ScopedDone(whole, text, names);
      Append(ret, len, [NUL], r, text, memory0, regions0);
      TableKept(memory0, memory, regions0, regions, a.elts, a.alloc, a.texts);
    }

    /** Writes a piece behind the text that the newest region r holds. */
    method Append(p: nat, len: nat, piece: string, ghost r: Region, ghost text: string,
                  ghost memory0: Memory, ghost regions0: set<Region>)
      requires Valid() && regions == regions0 + {r} && r !in regions0 && SameOver(memory0, memory, regions0)
      requires r.start == p && len == |text| && len + |piece| <= r.length && Spells(memory, p, text)
      modifies `memory
      ensures Valid() && SameOver(memory0, memory, regions0) && Spells(memory, p, text + piece)
    {
      hide Pool, SameOver, Spells;
      ghost var before := memory;
      Write(p + len, piece, r);
      SpelledOn(before, memory, p, text, piece);
      assert regions - {r} == regions0;
      SameOverTrans(memory0, before, memory, regions0, regions0);
    }
  }

  lemma ScopedNothing()
    ensures Scoped([]) == "" && Lengths([]) == 0
  {
  }

  /** One more name adds its length and two, and comes first. */
  lemma ScopedNext(names: seq<string>, n: nat)
    requires n < |names|
    ensures Lengths(names[..n + 1]) == Lengths(names[..n]) + 2 + |names[n]|
    ensures Scoped(names[..n + 1]) == names[n] + (if n > 0 then "::" else "") + Scoped(names[..n])
  {
    assert names[..n + 1][..n] == names[..n] && names[..n + 1][n] == names[n];
  }

  /** The text so far and the names that are left make up the whole. */
  ghost predicate ScopedRest(whole: string, text: string, names: seq<string>, n: nat) {
    n <= |names| && text + Scoped(names[..n]) == whole
  }

  lemma ScopedStep(whole: string, text: string, names: seq<string>, n: nat)
    requires n > 0 && ScopedRest(whole, text, names, n)
    ensures ScopedRest(whole, text + names[n - 1] + (if n > 1 then "::" else ""), names, n - 1)
    ensures |text| + |names[n - 1]| + (if n > 1 then 2 else 0) <= |whole|
  {
    ScopedNext(names, n - 1);
    var sep := if n > 1 then "::" else "";
    Joined(text, names[n - 1], sep);
    Joined(text, names[n - 1] + sep, Scoped(names[..n - 1]));
  }

  lemma ScopedDone(whole: string, text: string, names: seq<string>)
    requires ScopedRest(whole, text, names, 0)
    ensures text == whole
  {
    ScopedNothing();
  }

  lemma SpelledNothing(memory: Memory, p: nat)
    ensures Spells(memory, p, "")
  {
  }

  lemma SpelledOn(memory: Memory, memory': Memory, p: nat, text: string, piece: string)
    requires Spells(memory, p, text) && memory' == Stored(memory, p + |text|, piece)
    ensures Spells(memory', p, text + piece)
  {
    var whole := text + piece;
    forall i | 0 <= i < |whole| ensures Reads(memory', p, i, whole[i]) {
      if i < |text| {
        assert Reads(memory, p, i, text[i]);
        assert Same(memory, memory', p + i);
      } else {
        assert Reads(memory', p + |text|, i - |text|, piece[i - |text|]);
      }
    }
  }

  /** The text so far and the text of the rest of the format make up the whole. */
  ghost predicate Rest(whole: string, text: string, format: string, args: seq<Argument>, i: nat, k: nat)
    requires i <= |format| && k <= |args|
  {
    Fits(format[i..], args[k..]) && text + Expand(format[i..], args[k..]) == whole
  }

  /** One directive further. */
  lemma RestStep(whole: string, text: string, format: string, args: seq<Argument>, i: nat, k: nat)
    requires i < |format| && k <= |args| && Rest(whole, text, format, args, i, k)
    ensures Fed(format[i..], args[k..])
    ensures var piece := Piece(format[i..], args[k..]);
            if format[i] == '%' && i + 1 < |format| && format[i + 1] == 's' then
              k < |args| && !args[k].Character? && piece == (if args[k].Text? then args[k].text else "") &&
              Rest(whole, text + piece, format, args, i + 2, k + 1)
            else if format[i] == '%' && i + 1 < |format| && format[i + 1] == 'c' then
              k < |args| && args[k].Character? && piece == [args[k].c] && Rest(whole, text + piece, format, args, i + 2, k + 1)
            else
              piece == [format[i]] &&
              Rest(whole, text + piece, format, args,
                   if format[i] == '%' && i + 1 < |format| && format[i + 1] == '%' then i + 2 else i + 1, k)
    ensures |text| + |Piece(format[i..], args[k..])| <= |whole|
  {
    var f, a := format[i..], args[k..];
    assert f[Width(f)..] == format[i + Width(f)..] && a[Takes(f)..] == args[k + Takes(f)..];
    Joined(text, Piece(f, a), Expand(f[Width(f)..], a[Takes(f)..]));
  }

  lemma Joined(a: string, b: string, c: string)
    ensures a + (b + c) == (a + b) + c
  {
  }

  lemma RestNothing(whole: string, text: string, format: string, args: seq<Argument>, k: nat)
    requires k <= |args| && Rest(whole, text, format, args, |format|, k)
    ensures text == whole
  {
  }

  lemma ExpandNothing(format: string, args: seq<Argument>)
    requires Fits(format, args)
    ensures Rest(Expand(format, args), "", format, args, 0, 0)
  {
    assert format[0..] == format && args[0..] == args;
  }

  /** A text put over the entry at n, or behind the last one. */
  function Placed(texts: seq<string>, n: nat, text: string): seq<string>
    requires n <= |texts|
  {
    if n < |texts| then texts[n := text] else texts + [text]
  }

  /** The entry at n is the text, all others are as they were, and there is at most one more. */
  lemma PlacedAt(texts: seq<string>, n: nat, text: string)
    requires n <= |texts|
    ensures var placed := Placed(texts, n, text);
            && n < |placed| && placed[n] == text && |placed| == (if n == |texts| then |texts| + 1 else |texts|)
            && forall i :: 0 <= i < |texts| && i != n ==> placed[i] == texts[i]
  {
  }

  lemma WithinRegion(memory: Memory, memory': Memory, part: Region, r: Region)
    requires SameOutside(memory, memory', part)
    requires r.start <= part.start && part.start + part.length <= r.start + r.length
    ensures SameOutside(memory, memory', r)
  {
    assert forall a: nat :: !r.Holds(a) ==> !part.Holds(a);
  }

  /** Memory that was given out lies apart and is not empty. */
  ghost predicate LiveApart(live: set<Region>) {
    && (forall r <- live :: r.start != 0 && r.length > 0)
    && (forall r, q :: r in live && q in live && r != q ==> r.Apart(q))
  }

  function SetOf(blocks: seq<Region>): set<Region> {
    set b <- blocks
  }

  function Bases(blocks: seq<Region>): seq<nat> {
    seq(|blocks|, i requires 0 <= i < |blocks| => blocks[i].start)
  }

  /**
   The blocks are different live pieces of memory, so each address is given back once and takes only its block
   along.
   */
  lemma FreedOnce(blocks: seq<Region>, live: set<Region>, k: nat)
    requires LiveApart(live) && AllApart(blocks) && k < |blocks|
    requires forall b <- blocks :: b in live && b.length > 0
    ensures blocks[k] in live - SetOf(blocks[..k])
    ensures (set r <- live - SetOf(blocks[..k]) | r.start != blocks[k].start) == live - SetOf(blocks[..k + 1])
    ensures First(blocks[k..]) == blocks[k].start
    ensures Bases(blocks[..k + 1]) == Bases(blocks[..k]) + [blocks[k].start]
  {
    var c := blocks[k];
    assert blocks[..k + 1] == blocks[..k] + [c];
    assert c !in blocks[..k];
    assert forall r <- live :: r.start == c.start ==> r == c;
  }

  lemma BasesDistinct(blocks: seq<Region>)
    requires AllApart(blocks) && forall b <- blocks :: b.length > 0
    ensures forall i, j :: 0 <= i < j < |blocks| ==> Bases(blocks)[i] != Bases(blocks)[j]
  {
    assert forall i, j :: 0 <= i < j < |blocks| ==> blocks[i].Apart(blocks[j]);
  }

  lemma PoolFacts(memory: Memory, head: nat, avail: nat, blocks: seq<Region>, regions: set<Region>)
    requires Pool(memory, head, avail, blocks, regions)
    ensures avail <= AVAIL_SIZE && (avail > 0 ==> head != 0)
    ensures forall r, q :: r in regions && q in regions && r != q ==> r.Apart(q)
  {
  }
}
