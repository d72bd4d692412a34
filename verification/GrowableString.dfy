/** The string that the Itanium demangler's output ends up in; it doubles when it is full. */
module GrowableString {

  const NUL := '\0'

  class Growable {
    var buf: array?<char>
    var len: nat
    var alc: nat
    var allocationFailure: bool
    // All that was ever appended
    ghost var received: string

    ghost function Repr(): set<object>
      reads this
    {
      {this} + (if buf == null then {} else {buf})
    }

    /** The buffer holds all that was appended, with room for a closing NUL; after a failure there is no buffer. */
    ghost predicate Valid()
      reads Repr()
    {
      && (allocationFailure ==> buf == null)
      && (buf == null ==> len == 0 && alc == 0)
      && (buf != null ==> alc == buf.Length >= 2 && len < alc)
      && (!allocationFailure ==> received == if buf == null then "" else buf[..len])
    }

    constructor (estimate: nat)
      ensures Valid() && fresh(Repr()) && received == ""
      ensures !allocationFailure ==> alc >= estimate
    {
      buf, len, alc, allocationFailure, received := null, 0, 0, false, "";
      new;
      if estimate > 0 {
        Resize(estimate);
      }
    }

    /** The system's realloc: it may fail, otherwise it keeps the contents as far as they fit. */
    method Realloc(size: nat) returns (newbuf: array?<char>)
      requires size >= alc && Valid()
      ensures newbuf != null ==> fresh(newbuf) && newbuf.Length == size
      ensures newbuf != null && buf != null ==> newbuf[..len] == buf[..len]
    {
      var fails: bool := *;
      if fails { return null; }
      newbuf := new char[size];
      if buf != null {
        forall i | 0 <= i < len { newbuf[i] := buf[i]; }
        assert newbuf[..len] == buf[..len];
      }
    }

    /** Doubles until the need is met. */
    method Resize(need: nat)
      requires Valid()
      modifies this
      ensures Valid() && fresh(Repr() - old(Repr())) && received == old(received)
      ensures old(allocationFailure) ==> allocationFailure
      ensures !allocationFailure ==> alc >= need && len == old(len)
      ensures !allocationFailure ==>
                var first := if old(alc) > 0 then old(alc) else 2;
                Doubling(first, alc) && (alc == first || alc < 2 * need)
    {
      if allocationFailure { return; }
      var newalc := if alc > 0 then alc else 2;
      ghost var k := 0;
      while newalc < need
        invariant newalc == Doubled(if alc > 0 then alc else 2, k) && newalc >= 2 && newalc >= alc
        invariant k > 0 ==> newalc < 2 * need
        decreases need - newalc
      {
        newalc := newalc * 2;
        k := k + 1;
      }
      var newbuf := Realloc(newalc);
      if newbuf == null {
        buf, len, alc, allocationFailure := null, 0, 0, true;
        return;
      }
      buf := newbuf;
      alc := newalc;
    }

    method AppendBuffer(s: array<char>, l: nat)
      requires Valid() && l <= s.Length && s !in Repr()
      modifies Repr()
      ensures Valid() && fresh(Repr() - old(Repr())) && received == old(received) + s[..l]
      ensures old(allocationFailure) ==> allocationFailure
      ensures !allocationFailure ==> buf != null && buf[len] == NUL
    {
      var need := len + l + 1;
      if need > alc {
        Resize(need);
      }
      if allocationFailure {
        received := received + s[..l];
        return;
      }
      Store(s, l);
    }

    /** Copies the characters and the closing NUL behind the contents. */
    method Store(s: array<char>, l: nat)
      requires Valid() && !allocationFailure && l <= s.Length && s !in Repr() && len + l < alc
      modifies this, Repr()
      ensures Valid() && buf == old(buf) && !allocationFailure && received == old(received) + s[..l]
      ensures buf != null && buf[len] == NUL
    {
      forall i | 0 <= i < l { buf[len + i] := s[i]; }
      buf[len + l] := NUL;
      assert buf[..len + l] == buf[..len] + s[..l];
      len := len + l;
      received := received + s[..l];
    }
  }

  ghost predicate Doubling(n: nat, m: nat) {
    exists k: nat :: m == Doubled(n, k)
  }

  function Doubled(n: nat, k: nat): nat {
    if k == 0 then n else 2 * Doubled(n, k - 1)
  }
}
