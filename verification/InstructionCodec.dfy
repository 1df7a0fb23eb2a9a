/** Instruction dispatch by discriminator, strict argument decoding, and encoding back. */
module InstructionCodec {
  import opened Wrappers
  import opened FieldCodec
  import OB = OptionBool

  // A params struct: ordinary fields, then perhaps the remainder-consuming argument.
  datatype Params = Params(fields: seq<FieldType>, hasTrailer: bool)

  datatype Args = Args(values: seq<Value>, trailer: Option<OB.Form>)

  // disc is what dispatch matches; own is what the params type itself prepends, [] when it has none.
  datatype Variant = Variant(disc: seq<Byte>, own: seq<Byte>, params: Params)

  datatype Protocol = Protocol(discSize: nat, variants: seq<Variant>)

  datatype Instruction = Instruction(variant: nat, args: Args)

  datatype ParseError = DataTooShort | DeserializationFailed | UnknownDiscriminator(disc: seq<Byte>)

  predicate Valid(p: Protocol) {
    && p.discSize in {1, 2, 4, 8}
    && forall i :: 0 <= i < |p.variants| ==> |p.variants[i].disc| == p.discSize
  }

  predicate ArgsFit(ps: Params, args: Args) {
    && AllFit(ps.fields, args.values)
    && (args.trailer.Some? <==> ps.hasTrailer)
    && (args.trailer.Some? ==> OB.Encodable(args.trailer.value))
  }

  predicate CanonicalArgs(ps: Params, args: Args)
    requires ArgsFit(ps, args)
  {
    args.trailer.Some? ==> OB.Canonical(args.trailer.value)
  }

  function EncodeArgs(ps: Params, args: Args): seq<Byte>
    requires ArgsFit(ps, args)
  {
    EncodeAll(ps.fields, args.values) + if ps.hasTrailer then OB.ToBytes(args.trailer.value) else []
  }

  // Strict: a byte past the last field is refused, unless the last field takes the remainder.
  function DecodeArgs(ps: Params, data: seq<Byte>): Option<Args> {
    match DecodeAll(ps.fields, data)
    case None => None
    case Some((values, rest)) =>
      if !ps.hasTrailer then (if rest == [] then Some(Args(values, None)) else None)
      else
        match OB.FromBytes(rest)
        case None => None
        case Some(form) => Some(Args(values, Some(form)))
  }

  lemma DecodeArgsOfEncodeArgs(ps: Params, args: Args)
    requires ArgsFit(ps, args)
    ensures DecodeArgs(ps, EncodeArgs(ps, args)) == Some(args) <==> CanonicalArgs(ps, args)
  {
    var rest := if ps.hasTrailer then OB.ToBytes(args.trailer.value) else [];
    DecodeAllOfEncodeAll(ps.fields, args.values, rest);
    if ps.hasTrailer {
      OB.ToBytesRoundTrip(args.trailer.value);
    }
  }

  lemma EncodeArgsOfDecodeArgs(ps: Params, data: seq<Byte>)
    requires DecodeArgs(ps, data).Some?
    ensures var args := DecodeArgs(ps, data).value;
            ArgsFit(ps, args) && CanonicalArgs(ps, args) && EncodeArgs(ps, args) == data
  {
    EncodeAllOfDecodeAll(ps.fields, data);
    var (values, rest) := DecodeAll(ps.fields, data).value;
    if ps.hasTrailer {
      OB.FromBytesExact(rest);
      OB.ToBytesRoundTrip(OB.FromBytes(rest).value);
    }
  }

  predicate Matches(p: Protocol, i: nat, data: seq<Byte>)
    requires i < |p.variants| && p.discSize <= |data|
  {
    data[..p.discSize] == p.variants[i].disc
  }

  function Pad8(disc: seq<Byte>): seq<Byte> {
    disc + if |disc| < 8 then OB.Zeros(8 - |disc|) else []
  }

  // The first variant whose discriminator matches decides; if its arguments do not decode, parsing fails there.
  function ParseFrom(p: Protocol, data: seq<Byte>, i: nat): Result<Instruction, ParseError>
    requires p.discSize <= |data| && i <= |p.variants|
    decreases |p.variants| - i
  {
    if i == |p.variants| then Err(UnknownDiscriminator(Pad8(data[..p.discSize])))
    else if Matches(p, i, data) then
      match DecodeArgs(p.variants[i].params, data[p.discSize..])
      case None => Err(DeserializationFailed)
      case Some(args) => Ok(Instruction(i, args))
    else ParseFrom(p, data, i + 1)
  }

  function Parse(p: Protocol, data: seq<Byte>): Result<Instruction, ParseError> {
    if |data| < p.discSize then Err(DataTooShort) else ParseFrom(p, data, 0)
  }

  predicate WellTyped(p: Protocol, ix: Instruction) {
    ix.variant < |p.variants| && ArgsFit(p.variants[ix.variant].params, ix.args)
  }

  function Data(p: Protocol, ix: Instruction): seq<Byte>
    requires WellTyped(p, ix)
  {
    p.variants[ix.variant].own + EncodeArgs(p.variants[ix.variant].params, ix.args)
  }

  predicate FirstMatch(p: Protocol, data: seq<Byte>, i: nat) {
    && p.discSize <= |data| && i < |p.variants| && Matches(p, i, data)
    && forall j :: 0 <= j < i ==> !Matches(p, j, data)
  }

  lemma {:induction false} ParseFromFirst(p: Protocol, data: seq<Byte>, i: nat, from: nat)
    requires FirstMatch(p, data, i) && from <= i
    ensures ParseFrom(p, data, from) ==
            (match DecodeArgs(p.variants[i].params, data[p.discSize..])
             case None => Err(DeserializationFailed)
             case Some(args) => Ok(Instruction(i, args)))
    decreases i - from
  {
    if from < i {
      ParseFromFirst(p, data, i, from + 1);
    }
  }

  lemma {:induction false} ParseFromMatched(p: Protocol, data: seq<Byte>, from: nat)
    requires p.discSize <= |data| && from <= |p.variants|
    requires forall j :: 0 <= j < from ==> !Matches(p, j, data)
    ensures ParseFrom(p, data, from).Ok? ==> FirstMatch(p, data, ParseFrom(p, data, from).value.variant)
    ensures ParseFrom(p, data, from).Err? && ParseFrom(p, data, from).error.UnknownDiscriminator? <==>
            forall j :: 0 <= j < |p.variants| ==> !Matches(p, j, data)
    decreases |p.variants| - from
  {
    if from < |p.variants| && !Matches(p, from, data) {
      ParseFromMatched(p, data, from + 1);
    }
  }

  /** Whatever parses re-encodes to the bytes it came from, exactly when its params carry the discriminator they
      were dispatched on; a params type that emits none loses it. */
  lemma {:induction false} DataOfParsed(p: Protocol, data: seq<Byte>)
    requires Valid(p) && Parse(p, data).Ok?
    ensures var ix := Parse(p, data).value;
            && WellTyped(p, ix)
            && (Data(p, ix) == data <==> p.variants[ix.variant].own == p.variants[ix.variant].disc)
  {
    var ix := Parse(p, data).value;
    ParseFromMatched(p, data, 0);
    ParseFromFirst(p, data, ix.variant, 0);
    var v := p.variants[ix.variant];
    EncodeArgsOfDecodeArgs(v.params, data[p.discSize..]);
    SamePrefix(v.own, v.disc, data[p.discSize..]);
    assert data == v.disc + data[p.discSize..];
  }

  // An argument-less variant whose params type has no discriminator of its own: what it encodes does not parse.
  lemma NoParamsLosesDiscriminator(disc: Byte)
    ensures var p, ix := Protocol(1, [Variant([disc], [], Params([], false))]), Instruction(0, Args([], None));
            && Valid(p) && Parse(p, [disc]) == Ok(ix)
            && WellTyped(p, ix) && Data(p, ix) == []
            && Parse(p, Data(p, ix)) == Err(DataTooShort)
  {
    var p, data := Protocol(1, [Variant([disc], [], Params([], false))]), [disc];
    assert data[..1] == [disc] && data[1..] == [];
    assert Matches(p, 0, data);
    assert DecodeAll([], []) == Some(([], []));
  }

  // Right-padded with zeros to eight bytes.
  predicate Padded(disc: seq<Byte>, padded: seq<Byte>) {
    |padded| == 8 && disc <= padded && forall i :: |disc| <= i < 8 ==> padded[i] == 0
  }

  /** What a refusal reports. The first variant that matches has the only say. */
  lemma {:induction false} RefusalsReport(p: Protocol, data: seq<Byte>)
    requires Valid(p)
    ensures Parse(p, data) == Err(DataTooShort) <==> |data| < p.discSize
    ensures Parse(p, data) == Err(DeserializationFailed) <==>
            exists i: nat :: FirstMatch(p, data, i) && DecodeArgs(p.variants[i].params, data[p.discSize..]).None?
    ensures forall padded :: Parse(p, data) == Err(UnknownDiscriminator(padded)) <==>
              && p.discSize <= |data| && Padded(data[..p.discSize], padded)
              && forall i :: 0 <= i < |p.variants| ==> data[..p.discSize] != p.variants[i].disc
  {
    if p.discSize <= |data| {
      ParseFromMatched(p, data, 0);
      ParseFromUnknown(p, data, 0);
      PaddedIs(data[..p.discSize]);
      assert forall i :: 0 <= i < |p.variants| ==> (Matches(p, i, data) <==> data[..p.discSize] == p.variants[i].disc);
      if exists i :: 0 <= i < |p.variants| && Matches(p, i, data) {
        var i := FirstOf(p, data, 0);
        ParseFromFirst(p, data, i, 0);
        assert forall j: nat :: FirstMatch(p, data, j) ==> j == i;
      }
    }
  }

  lemma PaddedIs(disc: seq<Byte>)
    requires |disc| <= 8
    ensures forall padded :: Padded(disc, padded) <==> padded == Pad8(disc)
  {
    forall padded | Padded(disc, padded)
      ensures padded == Pad8(disc)
    {
      assert padded == padded[..|disc|] + padded[|disc|..];
    }
  }

  lemma {:induction false} ParseFromUnknown(p: Protocol, data: seq<Byte>, from: nat)
    requires p.discSize <= |data| && from <= |p.variants|
    ensures ParseFrom(p, data, from).Err? && ParseFrom(p, data, from).error.UnknownDiscriminator? ==>
              ParseFrom(p, data, from) == Err(UnknownDiscriminator(Pad8(data[..p.discSize])))
    decreases |p.variants| - from
  {
    if from < |p.variants| {
      ParseFromUnknown(p, data, from + 1);
    }
  }

  lemma {:induction false} FirstOf(p: Protocol, data: seq<Byte>, from: nat) returns (i: nat)
    requires p.discSize <= |data| && from <= |p.variants|
    requires forall j :: 0 <= j < from ==> !Matches(p, j, data)
    requires exists j :: 0 <= j < |p.variants| && Matches(p, j, data)
    ensures FirstMatch(p, data, i)
    decreases |p.variants| - from
  {
    if Matches(p, from, data) {
      i := from;
    } else {
      i := FirstOf(p, data, from + 1);
    }
  }

  lemma SamePrefix(a: seq<Byte>, b: seq<Byte>, tail: seq<Byte>)
    ensures a + tail == b + tail <==> a == b
  {
    if a + tail == b + tail {
      assert |a + tail| == |a| + |tail| && |b + tail| == |b| + |tail|;
      assert a == (a + tail)[..|a|] && b == (b + tail)[..|b|];
    }
  }

  /** An instruction survives the wire exactly when no earlier variant answers to its discriminator and its
      trailing argument is not a second spelling of a named form. */
  lemma {:induction false} ParseOfData(p: Protocol, ix: Instruction)
    requires Valid(p) && WellTyped(p, ix)
    requires p.variants[ix.variant].own == p.variants[ix.variant].disc
    ensures Parse(p, Data(p, ix)) == Ok(ix)
       <==> (forall j :: 0 <= j < ix.variant ==> p.variants[j].disc != p.variants[ix.variant].disc)
            && CanonicalArgs(p.variants[ix.variant].params, ix.args)
  {
    var v, data := p.variants[ix.variant], Data(p, ix);
    assert data[..p.discSize] == v.disc && data[p.discSize..] == EncodeArgs(v.params, ix.args);
    DecodeArgsOfEncodeArgs(v.params, ix.args);
    assert Matches(p, ix.variant, data);
    assert forall j :: 0 <= j < |p.variants| ==> (Matches(p, j, data) <==> p.variants[j].disc == v.disc);
    if forall j :: 0 <= j < ix.variant ==> !Matches(p, j, data) {
      ParseFromFirst(p, data, ix.variant, 0);
    } else if Parse(p, data) == Ok(ix) {
      ParseFromMatched(p, data, 0);
    }
  }

  /** The dispatch as it runs. */
  method TryFromSlice(p: Protocol, data: seq<Byte>) returns (r: Result<Instruction, ParseError>)
    requires Valid(p)
    ensures r == Parse(p, data)
    ensures |data| < p.discSize <==> r == Err(DataTooShort)
    ensures r.Err? && r.error.UnknownDiscriminator? <==>
            p.discSize <= |data| && forall j :: 0 <= j < |p.variants| ==> data[..p.discSize] != p.variants[j].disc
  {
    if |data| < p.discSize {
      return Err(DataTooShort);
    }
    ParseFromMatched(p, data, 0);
    assert forall j :: 0 <= j < |p.variants| ==> (Matches(p, j, data) <==> data[..p.discSize] == p.variants[j].disc);
    for i := 0 to |p.variants|
      invariant ParseFrom(p, data, 0) == ParseFrom(p, data, i)
    {
      if data[..p.discSize] == p.variants[i].disc {
        var args := DecodeArgs(p.variants[i].params, data[p.discSize..]);
        if args.None? {
          return Err(DeserializationFailed);
        }
        return Ok(Instruction(i, args.value));
      }
    }
    return Err(UnknownDiscriminator(Pad8(data[..p.discSize])));
  }
}
