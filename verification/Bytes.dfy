/** Unsigned bytes and the concatenation of a list of byte strings. */
module Bytes {
  newtype uint8 = x: int | 0 <= x < 256

  function Concat<T>(parts: seq<seq<T>>): (r: seq<T>)
  {
    if parts == [] then [] else parts[0] + Concat(parts[1..])
  }

  lemma Associative<T>(a: seq<T>, b: seq<T>, c: seq<T>)
    ensures (a + b) + c == a + (b + c)
  {
  }

  lemma {:induction false} ConcatAppend<T>(a: seq<seq<T>>, b: seq<seq<T>>)
    ensures Concat(a + b) == Concat(a) + Concat(b)
  {
    if a == [] {
      assert a + b == b;
    } else {
      assert (a + b)[1..] == a[1..] + b;
      ConcatAppend(a[1..], b);
    }
  }

  function Succ(b: bv8): bv8 {
    b + 1
  }

  lemma SuccIs(b: bv8)
    requires b != 0xFF
    ensures Succ(b) as nat == b as nat + 1
  {
  }

  /** The n-th bit pattern. */
  function AsBits(n: nat): bv8 {
    if n == 0 then 0 else Succ(AsBits(n - 1))
  }

  lemma {:induction false} AsBitsIs(n: nat)
    requires n < 256
    ensures AsBits(n) as nat == n
  {
    hide Succ;
    if n > 0 {
      AsBitsIs(n - 1);
      SuccIs(AsBits(n - 1));
    }
  }
}
