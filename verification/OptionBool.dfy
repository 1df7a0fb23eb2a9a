/** The trailing argument whose wire form senders disagree on: one variant per byte string. */
module OptionBool {
  import opened Wrappers
  import opened FieldCodec

  const MAX_TRAILER := 16

  // A trailer kept inline in a fixed buffer.
  datatype Trailer = Trailer(len: nat, bytes: seq<Byte>)

  datatype Form =
    | Unset
    | SomeFalse
    | SomeTrue
    | SomeTrueExtra
    | SomeFalseExtra
    | SomeFalseExtraInvalid
    | Unattributed(trailer: Trailer)

  method NewTrailer(bytes: seq<Byte>) returns (r: Option<Trailer>)
    ensures r == TrailerOf(bytes)
  {
    if bytes == [] || |bytes| > MAX_TRAILER {
      return None;
    }
    var buf := new Byte[MAX_TRAILER](i => 0);
    for i := 0 to |bytes|
      invariant buf[..i] == bytes[..i] && forall j :: i <= j < MAX_TRAILER ==> buf[j] == 0
    {
      buf[i] := bytes[i];
    }
    assert buf[..] == bytes + Zeros(MAX_TRAILER - |bytes|);
    return Some(Trailer(|bytes|, buf[..]));
  }

  function Zeros(n: nat): (r: seq<Byte>)
    ensures |r| == n
  {
    seq(n, i => 0)
  }

  function TrailerOf(bytes: seq<Byte>): Option<Trailer> {
    if bytes == [] || |bytes| > MAX_TRAILER then None
    else Some(Trailer(|bytes|, bytes + Zeros(MAX_TRAILER - |bytes|)))
  }

  // What construction from bytes produces. The derived deserializer checks none of this.
  predicate TrailerOk(t: Trailer) {
    && 1 <= t.len <= MAX_TRAILER == |t.bytes|
    && t.bytes[t.len..] == Zeros(MAX_TRAILER - t.len)
  }

  function AsSlice(t: Trailer): seq<Byte>
    requires t.len <= |t.bytes|
  {
    t.bytes[..t.len]
  }

  // The type: a sixteen-byte buffer and a length byte.
  predicate Typed(f: Form) {
    f.Unattributed? ==> |f.trailer.bytes| == MAX_TRAILER && f.trailer.len < 256
  }

  // A length past the buffer cannot be sliced.
  predicate Encodable(f: Form) {
    Typed(f) && (f.Unattributed? ==> f.trailer.len <= MAX_TRAILER)
  }

  function ToBytes(f: Form): seq<Byte>
    requires Encodable(f)
  {
    match f
    case Unset => []
    case SomeFalse => [0]
    case SomeTrue => [1]
    case SomeTrueExtra => [1, 1]
    case SomeFalseExtra => [1, 0]
    case SomeFalseExtraInvalid => [0, 1]
    case Unattributed(t) => AsSlice(t)
  }

  const NAMED: set<seq<Byte>> := {[], [0], [1], [1, 1], [1, 0], [0, 1]}

  function FromBytes(bytes: seq<Byte>): Option<Form> {
    if bytes == [] then Some(Unset)
    else if bytes == [0] then Some(SomeFalse)
    else if bytes == [1] then Some(SomeTrue)
    else if bytes == [1, 1] then Some(SomeTrueExtra)
    else if bytes == [1, 0] then Some(SomeFalseExtra)
    else if bytes == [0, 1] then Some(SomeFalseExtraInvalid)
    else
      match TrailerOf(bytes)
      case None => None
      case Some(t) => Some(Unattributed(t))
  }

  /** Decoding is total on trailers that fit, refuses every longer one, and keeps the exact bytes. */
  lemma FromBytesExact(bytes: seq<Byte>)
    ensures FromBytes(bytes).Some? <==> |bytes| <= MAX_TRAILER
    ensures FromBytes(bytes).Some? ==>
              var f := FromBytes(bytes).value; Encodable(f) && Canonical(f) && ToBytes(f) == bytes
  {
    if bytes !in NAMED && |bytes| <= MAX_TRAILER {
      var t := TrailerOf(bytes).value;
      assert t.bytes[..t.len] == bytes && t.bytes[t.len..] == Zeros(MAX_TRAILER - t.len);
    }
  }

  // The one value of its bytes: a trailer as bytes make it, and not spelling one of the named forms.
  predicate Canonical(f: Form) {
    f.Unattributed? ==> TrailerOk(f.trailer) && AsSlice(f.trailer) !in NAMED
  }

  lemma TrailerOfSlice(t: Trailer)
    requires TrailerOk(t)
    ensures TrailerOf(AsSlice(t)) == Some(t)
  {
    assert t.bytes == t.bytes[..t.len] + t.bytes[t.len..];
  }

  lemma TrailerOfIsOk(bytes: seq<Byte>)
    requires TrailerOf(bytes).Some?
    ensures TrailerOk(TrailerOf(bytes).value)
  {
    var t := TrailerOf(bytes).value;
    assert t.bytes[t.len..] == Zeros(MAX_TRAILER - t.len);
  }

  /** Of all the values the type holds, exactly these survive the wire: the named forms, and trailers as bytes make
      them that do not spell a named one. */
  lemma ToBytesRoundTrip(f: Form)
    requires Typed(f)
    ensures Encodable(f) && FromBytes(ToBytes(f)) == Some(f) <==> Canonical(f)
  {
    if f.Unattributed? && f.trailer.len <= MAX_TRAILER {
      var bytes := AsSlice(f.trailer);
      if TrailerOf(bytes).Some? {
        TrailerOfIsOk(bytes);
      }
      if TrailerOk(f.trailer) {
        TrailerOfSlice(f.trailer);
      }
    }
  }

  /** On decoded forms the bytes are the identity. */
  lemma DecodeInjective(a: seq<Byte>, b: seq<Byte>)
    requires |a| <= MAX_TRAILER
    ensures FromBytes(a) == FromBytes(b) <==> a == b
  {
    FromBytesExact(a);
    FromBytesExact(b);
  }

  // A byte string nobody has observed is kept, not refused; and a trailer built by hand can spell a named form.
  lemma UnobservedKept()
    ensures var unobserved, second := Trailer(1, [2] + Zeros(15)), Unattributed(Trailer(1, [1] + Zeros(15)));
            && FromBytes([2]) == Some(Unattributed(unobserved))
            && Encodable(second) && !Canonical(second)
            && ToBytes(second) == ToBytes(SomeTrue) == [1]
            && FromBytes(ToBytes(second)) == Some(SomeTrue) != Some(second)
  {
    var t := Trailer(1, [1] + Zeros(15));
    assert t.bytes[1..] == Zeros(15) && t.bytes[..1] == [1];
  }

  // The derived deserializer can also build a length nobody can slice, and spare bytes that do not come back.
  lemma DeserializedTrailers()
    ensures var long, spare := Unattributed(Trailer(17, Zeros(16))), Unattributed(Trailer(1, [2, 9] + Zeros(14)));
            && Typed(long) && !Encodable(long)
            && Encodable(spare) && ToBytes(spare) == [2]
            && FromBytes(ToBytes(spare)) == Some(Unattributed(Trailer(1, [2] + Zeros(15)))) != Some(spare)
  {
    var t, u := Trailer(1, [2, 9] + Zeros(14)), Trailer(1, [2] + Zeros(15));
    assert t.bytes[..1] == [2] && t.bytes[1] == 9 && u.bytes[1] == 0;
  }
}
