/** What the image walks of src/common/utils/image-sanitize.ts have in common. */
module ImageTypes {
  import opened Bytes

  /** `Rejected` is the source's own refusal, `OutOfRange` a read past the buffer. */
  datatype Refusal = Rejected | OutOfRange

  datatype Sanitized = Sanitized(body: Buffer, width: nat, height: nat)

  /** Where a size header lies: in the file, and in what is kept of it. */
  datatype Place = Place(at: nat, kept: nat)

  /** `toString('ascii')` of a tag is this name; the high bits are masked. */
  predicate Spells(tag: Buffer, name: string) {
    |tag| == |name| && forall i :: 0 <= i < |tag| ==> tag[i] % 0x80 == name[i] as int
  }

  lemma SpellsBytes(tag: Buffer, name: string, bytes: seq<int>)
    requires |tag| == 4 == |name| && |bytes| == 4 && forall i :: 0 <= i < 4 ==> bytes[i] == name[i] as int
    ensures Spells(tag, name) <==> Ascii4(tag, 0) == bytes
  {
    var shown := Ascii4(tag, 0);
    assert shown[0] == tag[0] % 0x80 && shown[1] == tag[1] % 0x80 && shown[2] == tag[2] % 0x80
      && shown[3] == tag[3] % 0x80;
  }
}
