/** codec/manager.go: codecs by version, a two-byte version in front of every encoding, and a limit
    on its size. */
module CodecManager {
  import opened Basics
  import opened ByteStrings
  import opened Codec
  import opened Packing
  import Laws = CodecLaws
  import Marshalling
  import Unmarshalling
  import Sizes
  import WireFormat

  /** The bytes a value marshals to under a version; None where an error is reported. */
  ghost function Encoding(codecs: map<nat, Env>, maxSize: int, version: nat, t: Type, v: Value): Option<Bytes> {
    if version !in codecs || Marshal(codecs[version], t, v).None? then None
    else
      var b := BigEndian(2, version) + Marshal(codecs[version], t, v).value;
      if |b| <= maxSize then Some(b) else None
  }

  /** The version and value that a byte string unmarshals to. */
  ghost function Decoding(codecs: map<nat, Env>, maxSize: int, b: Bytes, t: Type): Option<(nat, Value)>
  {
    if |b| > maxSize || |b| < 2 || IntAt(b, 0, 2) !in codecs then None
    else
      var version := IntAt(b, 0, 2);
      var r := Unmarshal(codecs[version], t, b[2..]);
      if r.None? then None else Some((version, r.value))
  }

  lemma DecodedIsEncoding(codecs: map<nat, Env>, maxSize: int, b: Bytes, version: nat, t: Type, v: Value)
    requires forall x :: x in codecs ==> codecs[x].Ranked() && codecs[x].Bijective() && x < 0x1_0000
    requires Decoding(codecs, maxSize, b, t) == Some((version, v))
    ensures Encoding(codecs, maxSize, version, t, v) == Some(b)
  {
    var rest := b[2..];
    assert Unmarshal(codecs[version], t, rest) == Some(v);
    Laws.UnmarshalIffMarshal(codecs[version], t, rest, v);
    Laws.IntAtWriteBack(b, 0, 2);
    assert b == b[0..2] + rest;
  }

  lemma EncodedIsDecoding(codecs: map<nat, Env>, maxSize: int, b: Bytes, version: nat, t: Type, v: Value)
    requires forall x :: x in codecs ==> codecs[x].Ranked() && codecs[x].Bijective() && x < 0x1_0000
    requires Encoding(codecs, maxSize, version, t, v) == Some(b)
    ensures Decoding(codecs, maxSize, b, t) == Some((version, v))
  {
    var rest := Marshal(codecs[version], t, v).value;
    Laws.Pow256Values();
    assert b[0..2] == BigEndian(2, version) && b[2..] == rest;
    FromBigEndianInverts(2, version);
    Laws.UnmarshalIffMarshal(codecs[version], t, rest, v);
  }

  /** A byte string is accepted as a value under a version exactly when marshalling that value under
      that version produces it. */
  lemma DecodingIffEncoding(codecs: map<nat, Env>, maxSize: int, b: Bytes, version: nat, t: Type, v: Value)
    requires forall x :: x in codecs ==> codecs[x].Ranked() && codecs[x].Bijective() && x < 0x1_0000
    ensures Decoding(codecs, maxSize, b, t) == Some((version, v)) <==>
            Encoding(codecs, maxSize, version, t, v) == Some(b)
  {
    if Decoding(codecs, maxSize, b, t) == Some((version, v)) {
      DecodedIsEncoding(codecs, maxSize, b, version, t, v);
    }
    if Encoding(codecs, maxSize, version, t, v) == Some(b) {
      EncodedIsDecoding(codecs, maxSize, b, version, t, v);
    }
  }

  /** A value is encoded under a version exactly when a codec is registered for it, the value has an
      encoding there and that with two bytes more is within the limit; the version stands in front. */
  lemma EncodingFormat(codecs: map<nat, Env>, maxSize: int, version: nat, t: Type, v: Value)
    requires version < 0x1_0000
    ensures var e := Encoding(codecs, maxSize, version, t, v);
            && (e.Some? <==> version in codecs && Enc(codecs[version], {}, t, v).Some?
                             && 2 + |Enc(codecs[version], {}, t, v).value| <= maxSize)
            && (e.Some? ==> |e.value| >= 2 && e.value[0] == version / 256 && e.value[1] == version % 256
                            && Some(e.value[2..]) == Enc(codecs[version], {}, t, v))
  {
    var e := Encoding(codecs, maxSize, version, t, v);
    if e.Some? {
      WireFormat.NumberFirst(2, version, Marshal(codecs[version], t, v).value);
      Laws.Pow256Values();
      assert e.value[0] == version / Pow256(1) % 256 && e.value[1] == version / Pow256(0) % 256;
    }
  }

  lemma AppendedAfter(a: Bytes, b: Bytes)
    ensures Overwrite(a, |a|, b) == a + b
  {
  }

  class Manager {
    const maxSize: int
    var codecs: map<nat, Env>

    ghost predicate Valid()
      reads this
    {
      forall version :: version in codecs ==> codecs[version].WellFormed() && version < 0x1_0000
    }

    constructor (maxSize: int)
      ensures Valid() && this.maxSize == maxSize && codecs == map[]
    {
      this.maxSize := maxSize;
      codecs := map[];
    }

    method RegisterCodec(version: nat, codec: Env) returns (err: Option<Error>)
      requires Valid() && codec.WellFormed() && version < 0x1_0000
      modifies this
      ensures Valid() && (err.Some? <==> version in old(codecs))
      ensures codecs == if err.None? then old(codecs)[version := codec] else old(codecs)
    {
      if version in codecs {
        return Some(DuplicatedVersion);
      }
      codecs := codecs[version := codec];
      err := None;
    }

    /** Whenever the value marshals, this is how long its encoding is. */
    method Size(version: nat, t: Type, v: Value) returns (size: nat, err: Option<Error>)
      requires Valid()
      ensures var e := Encoding(codecs, maxSize, version, t, v); e.Some? ==> err.None? && size == |e.value|
      ensures version !in codecs ==> err == Some(UnknownVersion)
    {
      if version !in codecs {
        return 0, Some(UnknownVersion);
      }
      var res, _, e := Sizes.SizeValue(codecs[version], {}, t, v);
      return 2 + res, e;
    }

    /** The packer holds the encoding and nothing else: no byte of a first pass is left behind it. */
    method MarshalVersioned(version: nat, t: Type, v: Value) returns (b: Bytes, err: Option<Error>)
      requires Valid()
      ensures err.None? <==> Encoding(codecs, maxSize, version, t, v).Some?
      ensures err.None? ==> Some(b) == Encoding(codecs, maxSize, version, t, v)
    {
      if version !in codecs {
        return [], Some(UnknownVersion);
      }
      var p := new Packer(maxSize, []);
      p.PackUint(2, version);
      if p.err.Some? {
        return [], Some(CantPackVersion);
      }
      assert p.bytes == BigEndian(2, version);
      err := Marshalling.MarshalValue(codecs[version], p, {}, t, v);
      b := p.bytes;
      if err.None? { AppendedAfter(BigEndian(2, version), Marshal(codecs[version], t, v).value); }
    }

    method UnmarshalVersioned(b: Bytes, t: Type) returns (version: nat, v: Value, err: Option<Error>)
      requires Valid()
      ensures err.None? <==> Decoding(codecs, maxSize, b, t).Some?
      ensures err.None? ==> Decoding(codecs, maxSize, b, t) == Some((version, v))
    {
      v := OtherV;
      if |b| > maxSize {
        return 0, v, Some(UnmarshalTooBig);
      }
      var p := new Packer(0, b);
      version := p.UnpackUint(2);
      if p.err.Some? {
        return 0, v, Some(CantUnpackVersion);
      }
      if version !in codecs {
        return version, v, Some(UnknownVersion);
      }
      err, v := Unmarshalling.UnmarshalFrom(codecs[version], b[p.offset..], t);
    }
  }
}
