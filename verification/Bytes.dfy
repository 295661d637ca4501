/** Bytes, C strings and the limits the resolver shares between its components. */
module Bytes {

  type byte = b: int | 0 <= b < 256
  type u16 = n: int | 0 <= n < 0x1_0000

  // A NUL-terminated string, without its terminator.
  type CString = s: seq<byte> | 0 !in s witness []

  datatype Option<+T> = None | Some(value: T)

  const MAX_LABEL_LEN := 63
  const MAX_NAME_LEN := 255
  const UDP_MAX_SIZE := 512
  const HEADER_SIZE := 12

  const DOT: byte := 46

  /** What a C library function sees of a block of memory: the bytes before the first NUL. */
  function CStr(memory: seq<byte>): (s: CString)
    ensures s <= memory
    ensures |s| < |memory| ==> memory[|s|] == 0
  {
    if memory == [] || memory[0] == 0 then [] else [memory[0]] + CStr(memory[1..])
  }

  lemma CStrStopsAtNul(text: seq<byte>, rest: seq<byte>)
    ensures CStr(text + [0] + rest) == CStr(text)
    ensures 0 !in text ==> CStr(text) == text
  {
    if text != [] {
      assert (text + [0] + rest)[1..] == text[1..] + [0] + rest;
      CStrStopsAtNul(text[1..], rest);
    }
  }

  /** An oracle for the allocator: whether the k-th allocation of a call succeeds. */
  type Allocator = nat -> bool

  /** The first n allocations of a call succeed. */
  ghost predicate Enough(alloc: Allocator, n: nat) {
    n == 0 || (alloc(n - 1) && Enough(alloc, n - 1))
  }

  lemma {:induction false} EnoughIs(alloc: Allocator, n: nat)
    ensures Enough(alloc, n) <==> forall k: nat :: k < n ==> alloc(k)
  {
    if n > 0 {
      EnoughIs(alloc, n - 1);
    }
  }

  lemma PlentyIsEnough(alloc: Allocator, n: nat)
    requires Plenty(alloc)
    ensures Enough(alloc, n)
  {
    EnoughIs(alloc, n);
  }

  // One failure among the first n.
  lemma {:induction false} NotEnough(alloc: Allocator, k: nat, n: nat)
    requires k < n && !alloc(k)
    ensures !Enough(alloc, n)
  {
    if k < n - 1 {
      NotEnough(alloc, k, n - 1);
    }
  }

  ghost predicate Plenty(alloc: Allocator) {
    forall k: nat :: alloc(k)
  }
}
