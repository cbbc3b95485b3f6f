/** Small value types shared by the modules of this model. */
module Common {

  /** A value that may be absent (a null reference, an invalid handle, a missing map entry). */
  datatype Option<T> = None | Some(value: T) {
    predicate IsFailure() { None? }

    function PropagateFailure<U>(): Option<U>
      requires None?
    {
      None
    }

    function Extract(): T
      requires Some?
    {
      value
    }
  }

  /** Number of values of an unsigned 32-bit integer. */
  const U32_MODULUS: int := 0x1_0000_0000

  /** An unsigned 32-bit integer (ezUInt32). */
  type u32 = x: int | 0 <= x < U32_MODULUS

  /** An unsigned 16-bit integer (ezUInt16). */
  type u16 = x: int | 0 <= x < 0x1_0000

  /** An unsigned 8-bit integer (ezUInt8). */
  type u8 = x: int | 0 <= x < 0x100

  /** A signed 32-bit integer (ezInt32). */
  type i32 = x: int | -0x8000_0000 <= x < 0x8000_0000

  /** Conversion of an integer to ezUInt32: two's complement wrap-around. */
  function ToU32(v: int): (r: u32)
    ensures 0 <= v < U32_MODULUS ==> r == v
    ensures -U32_MODULUS <= v < 0 ==> r == v + U32_MODULUS
    ensures (r - v) % U32_MODULUS == 0
  {
    v % U32_MODULUS
  }

  /** Conversion of an integer to ezUInt16: the low 16 bits. */
  function ToU16(v: int): (r: u16)
    ensures 0 <= v < 0x1_0000 ==> r == v
    ensures (r - v) % 0x1_0000 == 0
  {
    v % 0x1_0000
  }

  /** Every element of `s` is different from every other. */
  predicate NoDuplicates<T(==)>(s: seq<T>) {
    forall i, j :: 0 <= i < j < |s| ==> s[i] != s[j]
  }

  /** `s` with its first occurrence of `x` removed (`s` unchanged if `x` is absent). */
  function RemoveFirst<T(==)>(s: seq<T>, x: T): (r: seq<T>)
    ensures x !in s ==> r == s
    ensures x in s ==> |r| == |s| - 1
    ensures forall y :: y in r ==> y in s
    ensures forall y :: y in s && y != x ==> y in r
  {
    if s == [] then []
    else if s[0] == x then s[1..]
    else [s[0]] + RemoveFirst(s[1..], x)
  }

  /** Removing the first occurrence keeps the order of the other elements: the result
      is `s` spliced at the index of `x`. */
  lemma {:induction false} RemoveFirstSplices<T>(s: seq<T>, x: T)
    requires x in s
    ensures RemoveFirst(s, x) == s[..IndexOf(s, x).value] + s[IndexOf(s, x).value + 1..]
  {
    if s[0] == x {
      assert IndexOf(s, x) == Some(0);
      assert s[..0] + s[1..] == s[1..];
    } else {
      var t := s[1..];
      assert x in t;
      var k := IndexOf(t, x).value;
      RemoveFirstSplices(t, x);
      assert IndexOf(s, x) == Some(k + 1);
      assert RemoveFirst(s, x) == [s[0]] + RemoveFirst(t, x);
      calc {
        [s[0]] + (t[..k] + t[k + 1..]);
        ([s[0]] + t[..k]) + t[k + 1..];
        { assert [s[0]] + t[..k] == s[..k + 1]; assert t[k + 1..] == s[k + 2..]; }
        s[..k + 1] + s[k + 2..];
      }
    }
  }

  /** Splicing one element out of a list without duplicates leaves a list without
      duplicates that no longer holds that element. */
  lemma SpliceDistinct<T>(s: seq<T>, k: nat)
    requires k < |s| && NoDuplicates(s)
    ensures NoDuplicates(s[..k] + s[k + 1..]) && s[k] !in s[..k] + s[k + 1..]
  {
    var r := s[..k] + s[k + 1..];
    assert forall i :: 0 <= i < |r| ==> r[i] == s[if i < k then i else i + 1];
  }

  /** Selection toggling as done by the editor's and the game's selection containers:
      remove the object when it is selected, append it otherwise. */
  function Toggle<T(==)>(s: seq<T>, x: T): (r: seq<T>)
    ensures x in s ==> r == RemoveFirst(s, x)
    ensures x !in s ==> r == s + [x]
    ensures forall y :: y in r && y != x ==> y in s
    ensures forall y :: y in s && y != x ==> y in r
    ensures NoDuplicates(s) ==> NoDuplicates(r) && (x in r <==> x !in s)
  {
    if x in s then
      RemoveFirstSplices(s, x);
      if NoDuplicates(s) then SpliceDistinct(s, IndexOf(s, x).value); RemoveFirst(s, x)
      else RemoveFirst(s, x)
    else s + [x]
  }

  /** Toggling twice restores a selection that did not hold the object, and restores
      the membership of one that did (the object then moves to the end). */
  lemma ToggleTwice<T>(s: seq<T>, x: T)
    requires NoDuplicates(s)
    ensures x !in s ==> Toggle(Toggle(s, x), x) == s
    ensures x in s ==> Toggle(Toggle(s, x), x) == RemoveFirst(s, x) + [x]
    ensures forall y :: y in Toggle(Toggle(s, x), x) ==> y in s
    ensures forall y :: y in s ==> y in Toggle(Toggle(s, x), x)
  {
    if x !in s {
      var t := s + [x];
      assert Toggle(s, x) == t;
      assert x in t;
      assert IndexOf(t, x) == Some(|s|);
      RemoveFirstSplices(t, x);
      assert t[..|s|] + t[|s| + 1..] == s;
    } else {
      var r := RemoveFirst(s, x);
      RemoveFirstSplices(s, x);
      SpliceDistinct(s, IndexOf(s, x).value);
      assert Toggle(s, x) == r && x !in r;
    }
  }

  /** The product of two numbers below given bounds stays below the product of the bounds. */
  lemma IndexInBounds(w: nat, h: nat, x: nat, y: nat)
    requires x < w && y < h
    ensures y * w + x < w * h
  {
    calc {
      y * w + x;
    <  y * w + w;
    == (y + 1) * w;
    <= { MulMonotone(y + 1, h, w); }
      h * w;
    }
  }

  lemma MulMonotone(a: nat, b: nat, c: nat)
    requires a <= b
    ensures a * c <= b * c
  {
  }

  lemma MultisetWithoutLast<T>(t: seq<T>)
    requires |t| > 0
    ensures multiset(t[..|t| - 1]) == multiset(t) - multiset{t[|t| - 1]}
  {
    assert t == t[..|t| - 1] + [t[|t| - 1]];
  }

  /** `s` without its element at `i`: the last element takes its place. */
  function RemoveAtAndSwap<T>(s: seq<T>, i: nat): (r: seq<T>)
    requires i < |s|
    ensures |r| == |s| - 1
    ensures forall j :: 0 <= j < |r| && j != i ==> r[j] == s[j]
    ensures i < |r| ==> r[i] == s[|s| - 1]
    ensures multiset(r) == multiset(s) - multiset{s[i]}
  {
    var last := |s| - 1;
    var moved := s[i := s[last]];
    MultisetWithoutLast(moved);
    assert multiset(moved) == multiset(s) - multiset{s[i]} + multiset{s[last]};
    moved[..last]
  }

  /** The index of `x` in `s`, when present. */
  function IndexOf<T(==)>(s: seq<T>, x: T): (r: Option<nat>)
    ensures r.None? <==> x !in s
    ensures r.Some? ==> r.value < |s| && s[r.value] == x && forall j :: 0 <= j < r.value ==> s[j] != x
  {
    if s == [] then None
    else if s[0] == x then Some(0)
    else match IndexOf(s[1..], x)
      case None => None
      case Some(k) => Some(k + 1)
  }

  /** In a list without duplicates the index of the element at `i` is `i`. */
  lemma IndexOfDistinct<T>(s: seq<T>, i: nat)
    requires i < |s| && NoDuplicates(s)
    ensures IndexOf(s, s[i]) == Some(i)
  {
  }
}
