/** The growable byte buffer of gumbo-parser/src/string_buffer.c. */
module StringBuffers {
  import opened Utf8

  // size_t arithmetic wraps at 2^64.
  const SIZE_LIMIT: nat := 0x1_0000_0000_0000_0000

  // The largest capacity that doubling reaches from the default size of 5.
  const MAX_CAPACITY: nat := 0xA000_0000_0000_0000

  function WrapAdd(a: int, b: int): (r: nat)
  {
    (a + b) % SIZE_LIMIT
  }

  // The default size, doubled k times.
  function Capacity(k: nat): (c: nat)
  {
    if k == 0 then 5 else 2 * Capacity(k - 1)
  }

  lemma LargestCapacity()
    ensures Capacity(61) == MAX_CAPACITY
  {
    assert Capacity(12) == 0x5000;
    assert Capacity(24) == 0x500_0000;
    assert Capacity(36) == 0x50_0000_0000;
    assert Capacity(48) == 0x5_0000_0000_0000;
    assert Capacity(60) == 0x5000_0000_0000_0000;
  }

  lemma {:induction false} CapacitiesGrow(j: nat, k: nat)
    requires j <= k
    ensures Capacity(j) <= Capacity(k) && (j < k ==> 2 * Capacity(j) <= Capacity(k))
  {
    if j < k {
      CapacitiesGrow(j, k - 1);
    }
  }

  ghost predicate IsCapacity(c: nat)
  {
    exists k: nat :: k <= 61 && Capacity(k) == c
  }

  // Until the largest capacity is reached, doubling does not wrap.
  lemma NextCapacity(c: nat)
    requires IsCapacity(c)
    ensures 5 <= c <= MAX_CAPACITY
    ensures c < MAX_CAPACITY ==> WrapAdd(c, c) == 2 * c && IsCapacity(2 * c)
  {
    var k: nat :| k <= 61 && Capacity(k) == c;
    LargestCapacity();
    CapacitiesGrow(0, k);
    CapacitiesGrow(k, 61);
    if c < MAX_CAPACITY {
      assert Capacity(k + 1) == 2 * c;
    }
  }

  // The capacity after n turns of the loop, with the wrapping of size_t.
  ghost function Doubled(c: nat, n: nat): (r: nat)
  {
    if n == 0 then c else WrapAdd(Doubled(c, n - 1), Doubled(c, n - 1))
  }

  // What follows after the largest capacity: 2^62, 2^63 and then 0 for ever.
  ghost predicate Overrun(c: nat)
  {
    c == 0x4000_0000_0000_0000 || c == 0x8000_0000_0000_0000 || c == 0
  }

  lemma {:induction false} DoubledStays(c: nat, n: nat)
    requires IsCapacity(c)
    ensures IsCapacity(Doubled(c, n)) || Overrun(Doubled(c, n))
    ensures Doubled(c, n) <= MAX_CAPACITY
  {
    if n > 0 {
      DoubledStays(c, n - 1);
    }
    if IsCapacity(Doubled(c, n)) {
      NextCapacity(Doubled(c, n));
    } else if IsCapacity(Doubled(c, n - 1)) {
      NextCapacity(Doubled(c, n - 1));
    }
  }

  lemma {:induction false} DoubledReaches(j: nat, n: nat)
    requires j + n <= 61
    ensures Doubled(Capacity(j), n) == Capacity(j + n)
  {
    if n > 0 {
      DoubledReaches(j, n - 1);
      NextCapacity(Capacity(j + n - 1));
      CapacitiesGrow(j + n - 1, 61);
      LargestCapacity();
    }
  }

  // The doubling loop ends exactly when no more than the largest capacity is
  // wanted; beyond that it goes on for ever.
  lemma LoopEnds(c: nat, wanted: nat)
    requires IsCapacity(c)
    ensures (exists n :: Doubled(c, n) >= wanted) <==> wanted <= MAX_CAPACITY
  {
    if n :| Doubled(c, n) >= wanted {
      DoubledStays(c, n);
    }
    if wanted <= MAX_CAPACITY {
      var k: nat :| k <= 61 && Capacity(k) == c;
      DoubledReaches(k, 61 - k);
      LargestCapacity();
      assert Doubled(c, 61 - k) >= wanted;
    }
  }

  lemma TailStep(before: seq<bv8>, c: bv32, i: nat)
    requires i < 3
    ensures before + Tail(c, i + 1) == before + [Continuation(c, i)] + Tail(c, i)
  {
    hide Continuation;
  }

  lemma FewContinuations(c: bv32)
    ensures Continuations(c) <= 3
  {
  }

  lemma {:induction false} EncodeGrows(cs: seq<bv32>, n: nat)
    requires n <= |cs|
    ensures |EncodeAll(cs[..n])| <= |EncodeAll(cs)|
  {
    hide Encode;
    if n == |cs| {
      assert cs[..n] == cs;
    } else {
      assert cs[..|cs| - 1][..n] == cs[..n];
      EncodeGrows(cs[..|cs| - 1], n);
    }
  }

  // One more code point still fits if all of them do.
  lemma EncodePrefix(cs: seq<bv32>, i: nat)
    requires i < |cs|
    ensures |EncodeAll(cs[..i])| + Continuations(cs[i]) + 1 <= |EncodeAll(cs)|
  {
    EncodeSize(cs[i]);
    EncodeGrows(cs, i + 1);
    hide Encode, Continuations;
    assert cs[..i + 1][..i] == cs[..i];
  }

  lemma EncodeSize(c: bv32)
    ensures |Encode(c)| == Continuations(c) + 1
  {
    hide Lead, Continuation;
  }

  class StringBuffer {
    var data: array<bv8>
    var length: nat
    var capacity: nat

    ghost predicate Valid()
      reads this, data
    {
      length <= capacity == data.Length && IsCapacity(capacity)
    }

    ghost function Contents(): (s: seq<bv8>)
      requires Valid()
      reads this, data
    {
      data[..length]
    }

    constructor ()
      ensures Valid() && fresh(data) && Contents() == [] && capacity == 5
    {
      data := new bv8[5];
      length := 0;
      capacity := 5;
      assert Capacity(0) == 5;
    }

    // Doubles the capacity until `additional` more bytes fit; the sum may wrap.
    method MaybeResize(additional: nat)
      requires Valid() && additional < SIZE_LIMIT && WrapAdd(length, additional) <= MAX_CAPACITY
      modifies this`data, this`capacity
      ensures Valid() && Contents() == old(Contents()) && capacity >= old(capacity)
      ensures capacity >= WrapAdd(length, additional)
      ensures WrapAdd(length, additional) <= old(capacity) ==> capacity == old(capacity)
      ensures data == old(data) || fresh(data)
      ensures capacity == old(capacity) || capacity < 2 * WrapAdd(length, additional)
    {
      hide IsCapacity;
      var newLength := WrapAdd(length, additional);
      var newCapacity := capacity;
      while newCapacity < newLength
        invariant capacity <= newCapacity && IsCapacity(newCapacity)
        invariant newCapacity == capacity || (capacity < newLength && newCapacity < 2 * newLength)
        invariant capacity == old(capacity) && data == old(data) && Valid() && Contents() == old(Contents())
        decreases if newCapacity < newLength then newLength - newCapacity else 0
      {
        NextCapacity(newCapacity);
        newCapacity := WrapAdd(newCapacity, newCapacity);
      }
      if newCapacity != capacity {
        var grown := new bv8[newCapacity];
        forall i | 0 <= i < capacity {
          grown[i] := data[i];
        }
        assert grown[..length] == data[..length];
        data := grown;
        capacity := newCapacity;
      }
    }

    // The unsigned difference wraps when the buffer is longer than requested,
    // and the sum wraps back: the capacity asked for is the capacity compared.
    method Reserve(minCapacity: nat)
      requires Valid() && minCapacity <= MAX_CAPACITY
      modifies this`data, this`capacity
      ensures Valid() && Contents() == old(Contents())
      ensures capacity >= minCapacity && capacity >= old(capacity)
      ensures minCapacity <= old(capacity) ==> capacity == old(capacity)
      ensures data == old(data) || fresh(data)
    {
      hide IsCapacity;
      NextCapacity(capacity);
      var additional := WrapAdd(minCapacity, 0 - length);
      assert WrapAdd(length, additional) == minCapacity;
      MaybeResize(additional);
    }

    method AppendCodepoint(c: bv32)
      requires Valid() && length + Continuations(c) + 1 <= MAX_CAPACITY
      modifies this, data
      ensures Valid() && Contents() == old(Contents()) + Encode(c)
      ensures data == old(data) || fresh(data)
    {
      hide Lead, Continuation, Continuations, IsCapacity;
      var numBytes := Continuations(c);
      FewContinuations(c);
      MaybeResize(numBytes + 1);
      ghost var before := Contents();
      Push(Lead(c));
      AppendTail(c, numBytes);
      assert before + Encode(c) == before + [Lead(c)] + Tail(c, numBytes);
    }

    // The continuation bytes, from the highest bits down.
    method AppendTail(c: bv32, numBytes: nat)
      requires Valid() && numBytes <= 3 && length + numBytes <= capacity
      modifies this`length, data
      ensures Valid() && Contents() == old(Contents()) + Tail(c, numBytes)
    {
      hide Continuation, IsCapacity;
      ghost var before := Contents();
      var i := numBytes;
      while i > 0
        invariant 0 <= i <= numBytes && length + i <= capacity && Valid()
        invariant before + Tail(c, numBytes) == Contents() + Tail(c, i)
      {
        i := i - 1;
        TailStep(Contents(), c, i);
        Push(Continuation(c, i));
      }
      assert Tail(c, 0) == [];
    }

    // data[length++] = b
    method Push(b: bv8)
      requires Valid() && length < capacity
      modifies this`length, data
      ensures Valid() && Contents() == old(Contents()) + [b] && length == old(length) + 1
    {
      data[length] := b;
      length := length + 1;
    }

    method AppendString(s: seq<bv8>)
      requires Valid() && length + |s| <= MAX_CAPACITY
      modifies this, data
      ensures Valid() && Contents() == old(Contents()) + s
      ensures data == old(data) || fresh(data)
    {
      MaybeResize(|s|);
      Copy(data, length, s);
      length := length + |s|;
    }

    // memcpy(data + at, s, |s|)
    static method Copy(data: array<bv8>, at: nat, s: seq<bv8>)
      requires at + |s| <= data.Length
      modifies data
      ensures data[..at + |s|] == old(data[..at]) + s
    {
      var i := 0;
      while i < |s|
        invariant 0 <= i <= |s| && data[..at + i] == old(data[..at]) + s[..i]
      {
        data[at + i] := s[i];
        assert data[..at + i + 1] == data[..at + i] + [s[i]];
        i := i + 1;
      }
    }

    method ToBytes() returns (s: array<bv8>)
      requires Valid()
      ensures fresh(s) && s[..] == Contents() + [0]
    {
      s := new bv8[length + 1];
      forall i | 0 <= i < length {
        s[i] := data[i];
      }
      s[length] := 0;
    }

    method Clear()
      requires Valid()
      modifies this`length
      ensures Valid() && Contents() == [] && capacity == old(capacity)
    {
      length := 0;
    }

    // Appending a whole text code point by code point.
    method AppendText(cs: seq<bv32>)
      requires Valid() && length + |EncodeAll(cs)| <= MAX_CAPACITY
      modifies this, data
      ensures Valid() && Contents() == old(Contents()) + EncodeAll(cs)
      ensures data == old(data) || fresh(data)
    {
      hide IsCapacity, Encode, Continuations;
      var i := 0;
      while i < |cs|
        invariant 0 <= i <= |cs| && Valid() && (data == old(data) || fresh(data))
        invariant Contents() == old(Contents()) + EncodeAll(cs[..i])
      {
        EncodePrefix(cs, i);
        AppendCodepoint(cs[i]);
        i := i + 1;
        assert cs[..i][..i - 1] == cs[..i - 1];
      }
      assert cs[..i] == cs;
    }
  }
}
