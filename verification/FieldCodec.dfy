/** A small canonical field codec with the properties borsh has: self-delimiting, exact, little-endian. */
module FieldCodec {
  import opened Wrappers

  // A struct of several fields is its field list; List carries a count, Opt a presence byte.
  datatype FieldType =
    | UInt(width: nat)
    | SInt(width: nat)
    | Bool
    | FixedBytes(size: nat)
    | VarBytes
    | Opt(inner: FieldType)
    | List(inner: FieldType)

  datatype Value =
    | Num(n: int)
    | Flag(b: bool)
    | Raw(bytes: seq<Byte>)
    | Nothing
    | Just(value: Value)
    | Items(items: seq<Value>)

  const LEN_WIDTH := 4

  function Pow256(width: nat): (r: nat)
    ensures r > 0
  {
    if width == 0 then 1 else 256 * Pow256(width - 1)
  }

  function LeBytes(n: nat, width: nat): (r: seq<Byte>)
    ensures |r| == width
  {
    if width == 0 then [] else [n % 256] + LeBytes(n / 256, width - 1)
  }

  function LeNumber(bytes: seq<Byte>): nat {
    if bytes == [] then 0 else bytes[0] + 256 * LeNumber(bytes[1..])
  }

  lemma {:induction false} LeNumberOfBytes(n: nat, width: nat)
    requires n < Pow256(width)
    ensures LeNumber(LeBytes(n, width)) == n
    decreases width
  {
    if width > 0 {
      LeNumberOfBytes(n / 256, width - 1);
    }
  }

  lemma {:induction false} LeBytesOfNumber(bytes: seq<Byte>)
    ensures LeNumber(bytes) < Pow256(|bytes|) && LeBytes(LeNumber(bytes), |bytes|) == bytes
    decreases |bytes|
  {
    if bytes != [] {
      LeBytesOfNumber(bytes[1..]);
      assert LeNumber(bytes) % 256 == bytes[0] && LeNumber(bytes) / 256 == LeNumber(bytes[1..]);
    }
  }

  // What the Rust types say about a field's value.
  predicate Fits(t: FieldType, v: Value) {
    match t
    case UInt(width) => v.Num? && 0 <= v.n < Pow256(width)
    case SInt(width) => v.Num? && SignedRange(v.n, width)
    case Bool => v.Flag?
    case FixedBytes(size) => v.Raw? && |v.bytes| == size
    case VarBytes => v.Raw? && |v.bytes| < Pow256(LEN_WIDTH)
    case Opt(inner) => v.Nothing? || (v.Just? && Fits(inner, v.value))
    case List(inner) => v.Items? && |v.items| < Pow256(LEN_WIDTH) && AllOf(inner, v.items)
  }

  predicate AllOf(t: FieldType, vs: seq<Value>) {
    forall i :: 0 <= i < |vs| ==> Fits(t, vs[i])
  }

  // From minus half of 256 ^ width up to, not including, half of it.
  predicate SignedRange(n: int, width: nat) {
    0 <= 2 * n + Pow256(width) < 2 * Pow256(width)
  }

  // Two's complement.
  function Unsigned(n: int, width: nat): nat
    requires SignedRange(n, width)
  {
    if n < 0 then n + Pow256(width) else n
  }

  function Signed(u: nat, width: nat): int {
    if 2 * u >= Pow256(width) then u - Pow256(width) else u
  }

  function Encode(t: FieldType, v: Value): seq<Byte>
    requires Fits(t, v)
    decreases t, 0
  {
    match t
    case UInt(width) => LeBytes(v.n, width)
    case SInt(width) => LeBytes(Unsigned(v.n, width), width)
    case Bool => [if v.b then 1 else 0]
    case FixedBytes(_) => v.bytes
    case VarBytes => LeBytes(|v.bytes|, LEN_WIDTH) + v.bytes
    case Opt(inner) => if v.Nothing? then [0] else [1] + Encode(inner, v.value)
    case List(inner) => LeBytes(|v.items|, LEN_WIDTH) + EncodeItems(inner, v.items)
  }

  function EncodeItems(t: FieldType, vs: seq<Value>): seq<Byte>
    requires AllOf(t, vs)
    decreases t, |vs|
  {
    if vs == [] then [] else Encode(t, vs[0]) + EncodeItems(t, vs[1..])
  }

  // A value and the bytes after it; None when the bytes end early or hold no such value.
  function Decode(t: FieldType, data: seq<Byte>): Option<(Value, seq<Byte>)>
    decreases t, 0
  {
    match t
    case UInt(width) => DecodeNumber(width, false, data)
    case SInt(width) => DecodeNumber(width, true, data)
    case Bool =>
      if data == [] || data[0] > 1 then None else Some((Flag(data[0] == 1), data[1..]))
    case FixedBytes(size) =>
      if |data| < size then None else Some((Raw(data[..size]), data[size..]))
    case VarBytes =>
      (match DecodeLength(data)
       case None => None
       case Some((n, rest)) => if |rest| < n then None else Some((Raw(rest[..n]), rest[n..])))
    case Opt(inner) =>
      if data == [] || data[0] > 1 then None
      else if data[0] == 0 then Some((Nothing, data[1..]))
      else
        (match Decode(inner, data[1..])
         case None => None
         case Some((v, rest)) => Some((Just(v), rest)))
    case List(inner) =>
      (match DecodeLength(data)
       case None => None
       case Some((n, rest)) =>
         match DecodeItems(inner, n, rest)
         case None => None
         case Some((vs, end)) => Some((Items(vs), end)))
  }

  function DecodeNumber(width: nat, signed: bool, data: seq<Byte>): Option<(Value, seq<Byte>)> {
    if |data| < width then None
    else
      var u := LeNumber(data[..width]);
      Some((Num(if signed then Signed(u, width) else u), data[width..]))
  }

  function DecodeLength(data: seq<Byte>): Option<(nat, seq<Byte>)> {
    if |data| < LEN_WIDTH then None else Some((LeNumber(data[..LEN_WIDTH]), data[LEN_WIDTH..]))
  }

  function DecodeItems(t: FieldType, n: nat, data: seq<Byte>): Option<(seq<Value>, seq<Byte>)>
    decreases t, n
  {
    if n == 0 then Some(([], data))
    else
      match Decode(t, data)
      case None => None
      case Some((v, rest)) =>
        match DecodeItems(t, n - 1, rest)
        case None => None
        case Some((vs, end)) => Some(([v] + vs, end))
  }

  // ---- One field ----------------------------------------------------------

  lemma {:induction false} NumberRoundTrip(u: nat, width: nat, signed: bool, rest: seq<Byte>)
    requires u < Pow256(width)
    ensures DecodeNumber(width, signed, LeBytes(u, width) + rest)
         == Some((Num(if signed then Signed(u, width) else u), rest))
  {
    hide LeBytes, LeNumber, Pow256;
    LeNumberOfBytes(u, width);
    var data := LeBytes(u, width) + rest;
    assert data[..width] == LeBytes(u, width) && data[width..] == rest;
  }

  lemma {:induction false} LengthRoundTrip(n: nat, rest: seq<Byte>)
    requires n < Pow256(LEN_WIDTH)
    ensures DecodeLength(LeBytes(n, LEN_WIDTH) + rest) == Some((n, rest))
  {
    hide LeBytes, LeNumber, Pow256;
    LeNumberOfBytes(n, LEN_WIDTH);
    var data := LeBytes(n, LEN_WIDTH) + rest;
    assert data[..LEN_WIDTH] == LeBytes(n, LEN_WIDTH) && data[LEN_WIDTH..] == rest;
  }

  lemma {:induction false} RawRoundTrip(bytes: seq<Byte>, rest: seq<Byte>)
    requires |bytes| < Pow256(LEN_WIDTH)
    ensures Decode(VarBytes, LeBytes(|bytes|, LEN_WIDTH) + bytes + rest) == Some((Raw(bytes), rest))
  {
    hide LeBytes, Pow256, DecodeLength;
    LengthRoundTrip(|bytes|, bytes + rest);
    assert LeBytes(|bytes|, LEN_WIDTH) + bytes + rest == LeBytes(|bytes|, LEN_WIDTH) + (bytes + rest);
    assert (bytes + rest)[..|bytes|] == bytes && (bytes + rest)[|bytes|..] == rest;
  }

  lemma FixedRoundTrip(bytes: seq<Byte>, rest: seq<Byte>)
    ensures Decode(FixedBytes(|bytes|), bytes + rest) == Some((Raw(bytes), rest))
  {
    assert (bytes + rest)[..|bytes|] == bytes && (bytes + rest)[|bytes|..] == rest;
  }

  lemma {:induction false} DecodeOfEncode(t: FieldType, v: Value, rest: seq<Byte>)
    requires Fits(t, v)
    ensures Decode(t, Encode(t, v) + rest) == Some((v, rest))
    decreases t, 0
  {
    hide LeBytes, LeNumber, Pow256, DecodeNumber, DecodeLength;
    match t
    case UInt(width) => NumberRoundTrip(v.n, width, false, rest);
    case SInt(width) => NumberRoundTrip(Unsigned(v.n, width), width, true, rest);
    case Bool => assert (Encode(t, v) + rest)[1..] == rest;
    case FixedBytes(_) => FixedRoundTrip(v.bytes, rest);
    case VarBytes => RawRoundTrip(v.bytes, rest);
    case Opt(inner) => OptRoundTrip(inner, v, rest);
    case List(inner) => ListRoundTrip(inner, v.items, rest);
  }

  lemma {:induction false} OptRoundTrip(inner: FieldType, v: Value, rest: seq<Byte>)
    requires Fits(Opt(inner), v)
    ensures Decode(Opt(inner), Encode(Opt(inner), v) + rest) == Some((v, rest))
    decreases inner, 1
  {
    if v.Nothing? {
      assert ([0] + rest)[1..] == rest;
    } else {
      DecodeOfEncode(inner, v.value, rest);
      var data := [1] + Encode(inner, v.value) + rest;
      assert data[1..] == Encode(inner, v.value) + rest;
    }
  }

  lemma {:induction false} ListRoundTrip(inner: FieldType, vs: seq<Value>, rest: seq<Byte>)
    requires |vs| < Pow256(LEN_WIDTH) && AllOf(inner, vs)
    ensures Decode(List(inner), LeBytes(|vs|, LEN_WIDTH) + EncodeItems(inner, vs) + rest) == Some((Items(vs), rest))
    decreases inner, |vs| + 1
  {
    hide LeBytes, Pow256, DecodeLength, DecodeItems, EncodeItems;
    var body := EncodeItems(inner, vs) + rest;
    LengthRoundTrip(|vs|, body);
    ItemsRoundTrip(inner, vs, rest);
    assert LeBytes(|vs|, LEN_WIDTH) + EncodeItems(inner, vs) + rest == LeBytes(|vs|, LEN_WIDTH) + body;
  }

  lemma {:induction false} ItemsRoundTrip(t: FieldType, vs: seq<Value>, rest: seq<Byte>)
    requires AllOf(t, vs)
    ensures DecodeItems(t, |vs|, EncodeItems(t, vs) + rest) == Some((vs, rest))
    decreases t, |vs|
  {
    hide Decode, Encode, Fits;
    if vs == [] {
      assert EncodeItems(t, vs) + rest == rest;
    } else {
      var more := EncodeItems(t, vs[1..]) + rest;
      assert EncodeItems(t, vs) + rest == Encode(t, vs[0]) + more;
      DecodeOfEncode(t, vs[0], more);
      ItemsRoundTrip(t, vs[1..], rest);
      assert vs == [vs[0]] + vs[1..];
    }
  }

  lemma {:induction false} BytesOfNumber(data: seq<Byte>, width: nat)
    requires width <= |data|
    ensures var u := LeNumber(data[..width]);
            && u < Pow256(width) && LeBytes(u, width) + data[width..] == data
            && SignedRange(Signed(u, width), width)
            && Unsigned(Signed(u, width), width) == u
  {
    hide LeNumber, LeBytes, Pow256;
    LeBytesOfNumber(data[..width]);
  }

  lemma {:induction false} EncodeOfDecode(t: FieldType, data: seq<Byte>)
    requires Decode(t, data).Some?
    ensures var (v, rest) := Decode(t, data).value; Fits(t, v) && Encode(t, v) + rest == data
    decreases t, 0
  {
    hide LeNumber, LeBytes, Pow256;
    match t
    case UInt(width) => BytesOfNumber(data, width);
    case SInt(width) => BytesOfNumber(data, width);
    case Bool =>
    case FixedBytes(_) =>
    case VarBytes => RawOfDecode(data);
    case Opt(inner) => OptOfDecode(inner, data);
    case List(inner) => ListOfDecode(inner, data);
  }

  lemma {:induction false} RawOfDecode(data: seq<Byte>)
    requires Decode(VarBytes, data).Some?
    ensures var (v, rest) := Decode(VarBytes, data).value; Fits(VarBytes, v) && Encode(VarBytes, v) + rest == data
  {
    hide LeNumber, LeBytes, Pow256;
    BytesOfNumber(data, LEN_WIDTH);
    var n, rest := LeNumber(data[..LEN_WIDTH]), data[LEN_WIDTH..];
    assert rest == rest[..n] + rest[n..];
  }

  lemma {:induction false} OptOfDecode(inner: FieldType, data: seq<Byte>)
    requires Decode(Opt(inner), data).Some?
    ensures var (v, rest) := Decode(Opt(inner), data).value;
            Fits(Opt(inner), v) && Encode(Opt(inner), v) + rest == data
    decreases inner, 1
  {
    assert data == [data[0]] + data[1..];
    if data[0] == 1 {
      EncodeOfDecode(inner, data[1..]);
    }
  }

  lemma {:induction false} ListOfDecode(inner: FieldType, data: seq<Byte>)
    requires Decode(List(inner), data).Some?
    ensures var (v, rest) := Decode(List(inner), data).value;
            Fits(List(inner), v) && Encode(List(inner), v) + rest == data
    decreases inner, LeNumber(data[..if |data| < LEN_WIDTH then |data| else LEN_WIDTH]) + 1
  {
    hide LeNumber, LeBytes, Pow256, DecodeItems, EncodeItems, AllOf;
    BytesOfNumber(data, LEN_WIDTH);
    var n, body := DecodeLength(data).value.0, DecodeLength(data).value.1;
    ItemsOfDecode(inner, n, body);
    var vs, rest := DecodeItems(inner, n, body).value.0, DecodeItems(inner, n, body).value.1;
    assert LeBytes(n, LEN_WIDTH) + (EncodeItems(inner, vs) + rest)
           == LeBytes(n, LEN_WIDTH) + EncodeItems(inner, vs) + rest;
  }

  lemma {:induction false} ItemsOfDecode(t: FieldType, n: nat, data: seq<Byte>)
    requires DecodeItems(t, n, data).Some?
    ensures var (vs, rest) := DecodeItems(t, n, data).value;
            |vs| == n && AllOf(t, vs) && EncodeItems(t, vs) + rest == data
    decreases t, n
  {
    hide Decode, Encode, Fits;
    if n == 0 {
      assert [] + data == data;
    } else {
      EncodeOfDecode(t, data);
      var (v, more) := Decode(t, data).value;
      ItemsOfDecode(t, n - 1, more);
      var (tail, rest) := DecodeItems(t, n - 1, more).value;
      var vs := [v] + tail;
      assert vs[1..] == tail;
      assert Encode(t, v) + (EncodeItems(t, tail) + rest) == EncodeItems(t, vs) + rest;
    }
  }

  // ---- Field lists --------------------------------------------------------

  predicate AllFit(ts: seq<FieldType>, vs: seq<Value>) {
    |ts| == |vs| && forall i :: 0 <= i < |ts| ==> Fits(ts[i], vs[i])
  }

  function EncodeAll(ts: seq<FieldType>, vs: seq<Value>): seq<Byte>
    requires AllFit(ts, vs)
  {
    if ts == [] then [] else Encode(ts[0], vs[0]) + EncodeAll(ts[1..], vs[1..])
  }

  function DecodeAll(ts: seq<FieldType>, data: seq<Byte>): Option<(seq<Value>, seq<Byte>)> {
    if ts == [] then Some(([], data))
    else
      match Decode(ts[0], data)
      case None => None
      case Some((v, rest)) =>
        match DecodeAll(ts[1..], rest)
        case None => None
        case Some((vs, end)) => Some(([v] + vs, end))
  }

  lemma EncodeAllCons(ts: seq<FieldType>, vs: seq<Value>, rest: seq<Byte>)
    requires AllFit(ts, vs) && ts != []
    ensures EncodeAll(ts, vs) + rest == Encode(ts[0], vs[0]) + (EncodeAll(ts[1..], vs[1..]) + rest)
  {
  }

  lemma {:induction false} DecodeAllOfEncodeAll(ts: seq<FieldType>, vs: seq<Value>, rest: seq<Byte>)
    requires AllFit(ts, vs)
    ensures DecodeAll(ts, EncodeAll(ts, vs) + rest) == Some((vs, rest))
    decreases |ts|
  {
    hide Encode, Decode, Fits;
    if ts == [] {
      assert EncodeAll(ts, vs) + rest == rest;
    } else {
      EncodeAllCons(ts, vs, rest);
      DecodeOfEncode(ts[0], vs[0], EncodeAll(ts[1..], vs[1..]) + rest);
      DecodeAllOfEncodeAll(ts[1..], vs[1..], rest);
      assert vs == [vs[0]] + vs[1..];
    }
  }

  lemma {:induction false} EncodeAllOfDecodeAll(ts: seq<FieldType>, data: seq<Byte>)
    requires DecodeAll(ts, data).Some?
    ensures var (vs, rest) := DecodeAll(ts, data).value; AllFit(ts, vs) && EncodeAll(ts, vs) + rest == data
    decreases |ts|
  {
    hide Encode, Decode, Fits;
    if ts == [] {
      assert [] + data == data;
    } else {
      EncodeOfDecode(ts[0], data);
      var (v, more) := Decode(ts[0], data).value;
      EncodeAllOfDecodeAll(ts[1..], more);
      var (tail, rest) := DecodeAll(ts[1..], more).value;
      FitCons(ts, v, tail, rest);
    }
  }

  lemma FitCons(ts: seq<FieldType>, v: Value, tail: seq<Value>, rest: seq<Byte>)
    requires ts != [] && Fits(ts[0], v) && AllFit(ts[1..], tail)
    ensures AllFit(ts, [v] + tail)
    ensures EncodeAll(ts, [v] + tail) + rest == Encode(ts[0], v) + (EncodeAll(ts[1..], tail) + rest)
  {
    hide Fits, Encode, EncodeAll;
    var vs := [v] + tail;
    assert forall i :: 1 <= i < |ts| ==> ts[i] == ts[1..][i - 1] && vs[i] == tail[i - 1];
    assert vs[1..] == tail;
    EncodeAllCons(ts, vs, rest);
  }

  /** The wire form in particulars: little-endian, two's complement, a length in four bytes, one byte for a boolean or a
      presence. */
  lemma {:induction false} KnownBytes(t: FieldType, v: Value, bytes: seq<Byte>)
    ensures Fits(UInt(2), Num(258)) && Encode(UInt(2), Num(258)) == [2, 1]
    ensures Fits(SInt(2), Num(-2)) && Encode(SInt(2), Num(-2)) == [254, 255]
    ensures Encode(Bool, Flag(true)) == [1] && Encode(Bool, Flag(false)) == [0]
    ensures Encode(FixedBytes(|bytes|), Raw(bytes)) == bytes
    ensures |bytes| < 256 ==> Fits(VarBytes, Raw(bytes)) && Encode(VarBytes, Raw(bytes)) == [|bytes|, 0, 0, 0] + bytes
    ensures Encode(Opt(t), Nothing) == [0]
    ensures Fits(t, v) ==> Encode(Opt(t), Just(v)) == [1] + Encode(t, v)
    ensures Fits(t, v) ==>
              && Fits(List(t), Items([v, v]))
              && Encode(List(t), Items([v, v])) == [2, 0, 0, 0] + Encode(t, v) + Encode(t, v)
  {
    SmallLength(|bytes|);
    SmallLength(2);
    TwoBytes();
    if Fits(t, v) {
      TwoItems(t, v);
    }
  }

  lemma SmallLength(n: nat)
    ensures Pow256(1) == 256 && Pow256(2) == 65536 && 256 < Pow256(4)
    ensures n < 256 ==> LeBytes(n, 4) == [n, 0, 0, 0]
  {
    assert Pow256(1) == 256 * Pow256(0) && Pow256(2) == 256 * Pow256(1);
    assert Pow256(3) == 256 * Pow256(2) && Pow256(4) == 256 * Pow256(3);
    if n < 256 {
      assert LeBytes(0, 2) == [0] + LeBytes(0, 1) && LeBytes(0, 1) == [0] + LeBytes(0, 0);
      assert LeBytes(0, 3) == [0] + LeBytes(0, 2);
      assert LeBytes(n, 4) == [n] + LeBytes(0, 3);
    }
  }

  lemma TwoBytes()
    ensures LeBytes(258, 2) == [2, 1] && LeBytes(65534, 2) == [254, 255]
  {
    assert LeBytes(1, 1) == [1] + LeBytes(0, 0) && LeBytes(258, 2) == [2] + LeBytes(1, 1);
    assert LeBytes(255, 1) == [255] + LeBytes(0, 0) && LeBytes(65534, 2) == [254] + LeBytes(255, 1);
  }

  lemma TwoItems(t: FieldType, v: Value)
    requires Fits(t, v)
    ensures AllOf(t, [v, v]) && EncodeItems(t, [v, v]) == Encode(t, v) + Encode(t, v)
  {
    hide Encode, Fits;
    assert [v, v][1..] == [v] && [v][1..] == [];
    assert EncodeItems(t, [v]) == Encode(t, v) + EncodeItems(t, []);
  }
}
