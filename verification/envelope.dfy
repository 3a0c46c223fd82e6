/**
 * The encrypted container `<IV>:<Base64 of encrypted zip>` read by `unpack`.
 * The IV occupies the first 32 characters and the first ':' of the text must
 * sit right after it; the payload is everything after that ':'.
 */
module Envelope {
  import opened Wrappers
  import opened Strings

  /** Width of the IV text in front of the separator. */
  const IvLength: nat := 32

  /** The character between the IV and the Base64 payload. */
  const Separator: char := ':'

  /** A decoded container: the IV text and the Base64 payload text. */
  datatype Parts = Parts(iv: string, payload: string)

  /** An IV that can be written into a container and read back: 32 characters, no separator. */
  predicate ValidIv(iv: string)
  {
    |iv| == IvLength && Separator !in iv
  }

  /** The container text of an envelope. */
  function Join(e: Parts): (s: string)
    ensures |s| == |e.iv| + 1 + |e.payload|
  {
    e.iv + [Separator] + e.payload
  }

  /**
   * Acceptance stated positionally: the text is long enough to hold the separator
   * at offset 32, the separator is there, and it occurs nowhere before.
   */
  predicate WellFormed(contents: string)
  {
    |contents| > IvLength
    && contents[IvLength] == Separator
    && forall i :: 0 <= i < IvLength ==> contents[i] != Separator
  }

  /**
   * The check and split in `unpack`: reject unless the first ':' is at index 32,
   * then take `substr(0, 32)` as the IV and `substr(33)` as the payload.
   */
  function Split(contents: string): (r: Option<Parts>)
    ensures r.Some? <==> WellFormed(contents)
    ensures r.Some? ==> ValidIv(r.value.iv) && Join(r.value) == contents
  {
    if FindFirst(contents, Separator) != Some(IvLength) then
      None
    else
      var e := Parts(contents[..IvLength], contents[IvLength + 1..]);
      assert Join(e) == contents;
      Some(e)
  }

  /** Writing an envelope and splitting it again gives the same IV and payload back. */
  lemma SplitJoin(e: Parts)
    requires ValidIv(e.iv)
    ensures Split(Join(e)) == Some(e)
  {
    var s := Join(e);
    assert s[..IvLength] == e.iv;
    assert s[IvLength] == Separator;
    assert s[IvLength + 1..] == e.payload;
    assert WellFormed(s);
  }

  /**
   * A ':' anywhere before offset 32 rejects the container, whatever is at
   * offset 32 itself (the search is for the first ':', not a look at offset 32).
   */
  lemma EarlySeparatorRejects(contents: string, i: nat)
    requires i < IvLength && i < |contents| && contents[i] == Separator
    ensures Split(contents) == None
  {
  }
}
