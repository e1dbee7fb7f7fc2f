/**
 * The package's older copy of the tag-URI decoder, BitTagDecoder. It makes
 * the same checks, decodes the same way and reads URIs back the same way as
 * BitTag.Decoder; its tags are the same BitTag values.
 */
module LegacyBitTag {
  import opened Wrappers
  import opened Bits
  import Text
  import BitFields
  import BitTag

  /** A URI prefix and the exploder that splits tag data into fields. */
  class BitTagDecoder {
    var uriPrefix: Text.String
    var exploder: BitFields.BitExploder

    /** The zero BitTagDecoder{}. */
    constructor()
      ensures uriPrefix == [] && fresh(exploder)
      ensures exploder.bitLength == 0 && exploder.extractors == []
    {
      uriPrefix := [];
      exploder := new BitFields.BitExploder();
    }

    /** setTaggingEntity: sets the prefix from the tagging entity; on an error nothing changes. */
    method SetTaggingEntity(authority: Text.String, date: Text.String) returns (err: Outcome<BitTag.TagError>)
      modifies this
      ensures exploder == old(exploder)
      ensures err == Pass <==> BitTag.TaggingEntity(authority, date).Success?
      ensures err.Fail? ==> err.error == BitTag.TaggingEntity(authority, date).error && uriPrefix == old(uriPrefix)
      ensures err == Pass ==> uriPrefix == BitTag.TaggingEntity(authority, date).value
    {
      var r := BitTag.TaggingEntity(authority, date);
      if r.Failure? {
        return Fail(r.error);
      }
      uriPrefix := r.value;
      return Pass;
    }

    /** Decode: an error for too little data, else the big-endian value of every field. */
    method Decode(data: seq<Byte>) returns (r: Result<BitTag.BitTag, BitTag.TagError>)
      requires exploder.Valid()
      ensures r.Failure? <==> 8 * |data| < exploder.BitLength()
      ensures r.Failure? ==> r.error == BitTag.ShortData(8 * |data|, exploder.BitLength())
      ensures r.Success? ==> r.value.uriPrefix == uriPrefix && BitTag.FieldValues(exploder.widths, data, r.value.fields)
    {
      r := BitTag.DecodeWith(uriPrefix, exploder, data);
    }

    function Fields(uri: Text.String): Result<seq<Text.String>, BitTag.TagError>
      reads this, exploder, exploder.Repr
      requires exploder.Valid()
    {
      BitTag.ParseFields(uriPrefix, exploder.NumFields(), uri)
    }

    function Field(uri: Text.String, idx: int): Result<Text.String, BitTag.TagError>
      reads this, exploder, exploder.Repr
      requires exploder.Valid()
    {
      BitTag.FieldAt(uriPrefix, exploder.NumFields(), uri, idx)
    }

    /** A tag this decoder decodes reads back through Fields as its decimal fields. */
    lemma DecodedRoundTrip(bt: BitTag.BitTag)
      requires exploder.Valid()
      requires bt.uriPrefix == uriPrefix && |bt.fields| == exploder.NumFields()
      ensures Fields(bt.TagURI()) == Success(BitTag.Decimals(bt.fields))
    {
      BitTag.URIRoundTrip(bt);
    }
  }

  /**
   * NewBitTagDecoder: a zero decoder given the tagging entity, then an
   * exploder for the widths; it stops at the first error, keeping what was
   * set.  SetBounds' overflow panic is the precondition.
   */
  method NewBitTagDecoder(authority: Text.String, date: Text.String, widths: seq<int>)
    returns (d: BitTagDecoder, err: Outcome<BitTag.TagError>)
    requires BitTag.TaggingEntity(authority, date).Success? ==>
               BitFields.Offset(widths, BitFields.FirstNonPositive(widths, 0)) <= MaxInt
    ensures fresh(d)
    ensures BitTag.TaggingEntity(authority, date).Failure? ==>
              err == Fail(BitTag.TaggingEntity(authority, date).error) && d.uriPrefix == []
    ensures BitTag.TaggingEntity(authority, date).Success? ==>
              && d.uriPrefix == BitTag.TaggingEntity(authority, date).value
              && (err == Pass <==> |widths| >= 1 && BitFields.FirstNonPositive(widths, 0) == |widths|)
    ensures err == Pass ==> d.exploder.Valid() && d.exploder.widths == widths
    ensures err.Fail? ==> d.exploder.bitLength == 0 && d.exploder.extractors == []
  {
    d := new BitTagDecoder();
    err := d.SetTaggingEntity(authority, date);
    if err.Fail? {
      return;
    }
    var exp, e := BitFields.NewBitExploder(widths);
    if e.Fail? {
      return d, Fail(BitTag.Exploder(e.error));
    }
    d.exploder := exp;
    return d, Pass;
  }
}
