/** wrappers.Packer (utils/wrappers/packing.go): a byte slice that is written and read at an
    offset, with a sticky error. */
module Packing {
  import opened Basics
  import opened ByteStrings

  datatype Error =
    | InsufficientLength
    | InvalidInput
    | BadBool
    | MarshalNil
    | RecursiveInterfaceTypes
    | UnregisteredType
    | UnknownTypeID
    | DoesNotImplementInterface
    | MaxSliceLenExceeded
    | ZeroLength
    | UnsupportedType
    | KeysNotSorted
    | ExtraSpace
    | UnknownVersion
    | DuplicatedVersion
    | CantPackVersion
    | CantUnpackVersion
    | UnmarshalTooBig

  /** `s` with `b` written over it from `off` on. */
  function Overwrite(s: Bytes, off: nat, b: Bytes): (r: Bytes)
    requires off <= |s|
    ensures |r| == Max(|s|, off + |b|)
    ensures forall i :: 0 <= i < |r| ==> r[i] == if off <= i < off + |b| then b[i - off] else s[i]
  {
    seq(Max(|s|, off + |b|), i
        requires 0 <= i < Max(|s|, off + |b|) => if off <= i < off + |b| then b[i - off] else s[i])
  }

  /** Writing `z` over what follows `x` in what has been written. */
  lemma OverwriteAgain(s: Bytes, off: nat, x: Bytes, y: Bytes, z: Bytes)
    requires off <= |s|
    ensures Overwrite(Overwrite(s, off, x + y), off + |x|, z) ==
            Overwrite(s, off, x + z + if |z| <= |y| then y[|z|..] else [])
  {
  }

  lemma OverwriteTwice(s: Bytes, off: nat, x: Bytes, z: Bytes)
    requires off <= |s|
    ensures Overwrite(Overwrite(s, off, x), off + |x|, z) == Overwrite(s, off, x + z)
  {
    assert x + [] == x && x + z + [] == x + z;
    OverwriteAgain(s, off, x, [], z);
  }

  class Packer {
    const maxSize: int
    var bytes: Bytes
    var offset: nat
    var err: Option<Error>

    constructor (maxSize: int, bytes: Bytes)
      ensures this.maxSize == maxSize && this.bytes == bytes && offset == 0 && err.None?
    {
      this.maxSize := maxSize;
      this.bytes := bytes;
      offset := 0;
      err := None;
    }

    ghost predicate Ready()
      reads this
    {
      err.None? && offset <= |bytes|
    }

    /** The length that the byte slice may have at most. */
    ghost function Limit(): int
      reads this
    {
      Max(|bytes|, maxSize)
    }

    ghost predicate Fits(n: nat)
      reads this
    {
      offset + n <= Limit()
    }

    /** Makes room for `n` bytes at the offset; what the new room holds is not specified. */
    method Expand(n: nat)
      requires offset <= |bytes|
      modifies this
      ensures offset == old(offset)
      ensures old(Fits(n)) ==> err == old(err) && |bytes| == Max(|old(bytes)|, offset + n) && old(bytes) <= bytes
      ensures !old(Fits(n)) ==> err == Some(InsufficientLength) && bytes == old(bytes)
    {
      var needed := n + offset;
      if needed <= |bytes| {
        return;
      }
      if needed > maxSize {
        err := Some(InsufficientLength);
        return;
      }
      var room: Bytes := *;
      if |room| != needed - |bytes| {
        room := seq(needed - |bytes|, _ => 0);
      }
      bytes := bytes + room;
    }

    method PackFixedBytes(b: Bytes)
      requires offset <= |bytes|
      modifies this
      ensures offset <= |bytes|
      ensures old(err.None?) && old(Fits(|b|)) ==>
                err.None? && bytes == Overwrite(old(bytes), old(offset), b) && offset == old(offset) + |b|
                  && Limit() == old(Limit())
      ensures old(err.Some?) || !old(Fits(|b|)) ==> err.Some?
    {
      Expand(|b|);
      if err.Some? {
        return;
      }
      bytes := bytes[..offset] + b + bytes[offset + |b|..];
      assert bytes == Overwrite(old(bytes), old(offset), b);
      offset := offset + |b|;
    }

    /** PackByte, PackShort, PackInt and PackLong, for `w` = 1, 2, 4 and 8. */
    method PackUint(w: nat, n: nat)
      requires offset <= |bytes|
      modifies this
      ensures offset <= |bytes|
      ensures old(err.None?) && old(Fits(w)) ==>
                && err.None? && bytes == Overwrite(old(bytes), old(offset), BigEndian(w, n))
                && offset == old(offset) + w && Limit() == old(Limit())
      ensures old(err.Some?) || !old(Fits(w)) ==> err.Some?
    {
      PackFixedBytes(BigEndian(w, n));
    }

    method PackStr(s: Bytes)
      requires offset <= |bytes|
      modifies this
      ensures offset <= |bytes|
      ensures old(err.None?) && old(Fits(2 + |s|)) && |s| <= 65535 ==>
                && err.None? && bytes == Overwrite(old(bytes), old(offset), BigEndian(2, |s|) + s)
                && offset == old(offset) + 2 + |s| && Limit() == old(Limit())
      ensures old(err.Some?) || !old(Fits(2 + |s|)) || |s| > 65535 ==> err.Some?
      ensures old(err.Some?) && |s| > 65535 ==> unchanged(this)
    {
      if |s| > 65535 {
        if err.None? { err := Some(InvalidInput); }
        return;
      }
      PackUint(2, |s|);
      PackFixedBytes(s);
      if err.Some? { return; }
      OverwriteTwice(old(bytes), old(offset), BigEndian(2, |s|), s);
    }

    /** Takes the next `n` bytes. */
    method UnpackFixedBytes(n: nat) returns (b: Bytes)
      requires offset <= |bytes|
      modifies this`offset, this`err
      ensures offset <= |bytes|
      ensures old(err.None?) && old(offset) + n <= |bytes| ==>
                err.None? && offset == old(offset) + n && b == bytes[old(offset)..offset]
      ensures old(err.Some?) || old(offset) + n > |bytes| ==> err.Some? && offset == old(offset) && b == []
      ensures old(err.Some?) ==> err == old(err)
    {
      if |bytes| - offset < n && err.None? {
        err := Some(InsufficientLength);
      }
      if err.Some? {
        return [];
      }
      b := bytes[offset..offset + n];
      offset := offset + n;
    }

    /** UnpackByte, UnpackShort, UnpackInt and UnpackLong; zero when there are not enough bytes. */
    method UnpackUint(w: nat) returns (n: nat)
      requires offset <= |bytes|
      modifies this`offset, this`err
      ensures offset <= |bytes|
      ensures old(err.None?) && old(offset) + w <= |bytes| ==>
                err.None? && offset == old(offset) + w && n == FromBigEndian(bytes[old(offset)..offset])
      ensures old(err.Some?) || old(offset) + w > |bytes| ==> err.Some? && offset == old(offset) && n == 0
      ensures old(err.Some?) ==> err == old(err)
    {
      var b := UnpackFixedBytes(w);
      n := FromBigEndian(b);
    }

    method UnpackBool() returns (b: bool)
      requires offset <= |bytes|
      modifies this`offset, this`err
      ensures offset <= |bytes|
      ensures old(err.None?) && old(offset) < |bytes| && bytes[old(offset)] <= 1 ==>
                err.None? && offset == old(offset) + 1 && b == (bytes[old(offset)] == 1)
      ensures old(err.Some?) || old(offset) >= |bytes| || bytes[old(offset)] > 1 ==> err.Some? && !b
      ensures old(err.Some?) ==> err == old(err) && offset == old(offset)
    {
      var raw := UnpackFixedBytes(1);
      if err.None? && raw[0] > 1 {
        err := Some(BadBool);
      }
      b := err.None? && raw[0] == 1;
    }

    method UnpackStr() returns (s: Bytes)
      requires offset <= |bytes|
      modifies this`offset, this`err
      ensures offset <= |bytes|
      ensures var o := old(offset);
              if old(err.None?) && o + 2 <= |bytes| && o + 2 + FromBigEndian(bytes[o..o + 2]) <= |bytes| then
                && err.None? && offset == o + 2 + FromBigEndian(bytes[o..o + 2]) && s == bytes[o + 2..offset]
              else err.Some? && s == []
      ensures old(err.Some?) ==> err == old(err) && offset == old(offset)
    {
      var n := UnpackUint(2);
      s := UnpackFixedBytes(n);
    }
  }
}
