/**
 * The start-up pipeline of `main` (unpack, then build the list, then pick the
 * start index) and the viewer state that `next` and `prev` move through.
 */
module Session {
  import opened Wrappers
  import opened Envelope
  import opened Archive
  import opened Navigator

  /** Why start-up stops before a window can show an image. */
  datatype Error =
    | MalformedEnvelope   // the first ':' is not at offset 32
    | DecryptionFailed    // the AES/Base64 step rejected the payload
    | NoImagesFound       // the filter kept nothing, so there is no item 0 to show

  /**
   * AES decryption of a Base64 payload under an IV and a key, yielding the raw
   * zip text, or `None` when the cipher rejects it.
   */
  type Decryptor = (string, string, string) -> Option<string>

  /** The zip directory of a raw archive, in the order the archive lists it. */
  type DirectoryReader = string -> seq<Entry>

  /**
   * `unpack`: check and split the container, then decrypt the payload with the
   * IV and key. The temporary file the source writes the result to is modelled
   * as handing the decrypted text straight on.
   */
  function Unpack(contents: string, key: string, decrypt: Decryptor): (r: Result<string, Error>)
    ensures r == Failure(MalformedEnvelope) <==> !WellFormed(contents)
    ensures WellFormed(contents) ==>
              (r.Success? <==> decrypt(contents[IvLength + 1..], contents[..IvLength], key).Some?)
    ensures WellFormed(contents) && decrypt(contents[IvLength + 1..], contents[..IvLength], key).None? ==>
              r == Failure(DecryptionFailed)
    ensures r.Success? ==>
              Some(r.value) == decrypt(contents[IvLength + 1..], contents[..IvLength], key)
  {
    match Split(contents)
    case None => Failure(MalformedEnvelope)
    case Some(e) =>
      assert e.iv == contents[..IvLength] && e.payload == contents[IvLength + 1..] by {
        assert contents == e.iv + [Separator] + e.payload;
      }
      match decrypt(e.payload, e.iv, key)
      case None => Failure(DecryptionFailed)
      case Some(zip) => Success(zip)
  }

  /** A malformed container is rejected before any decryption is attempted. */
  lemma MalformedSkipsDecryption(contents: string, key: string, d1: Decryptor, d2: Decryptor)
    requires !WellFormed(contents)
    ensures Unpack(contents, key, d1) == Unpack(contents, key, d2) == Failure(MalformedEnvelope)
  {
  }

  /** The viewer's list of items and the zero-based index of the one on screen. */
  datatype Viewer = Viewer(list: seq<Item>, currentIndex: int)

  /** The list is non-empty and the index points into it. */
  predicate Valid(v: Viewer)
  {
    0 <= v.currentIndex < |v.list|
  }

  /**
   * Start-up in `main`: with a key, unpack the container and read the decrypted
   * archive; without one, read the file as a plain archive. Then build the list
   * and, if a start index was given, clamp it into the list. The start index is
   * the third argument, so it can only be present when a key is.
   */
  function Open(archive: string, key: Option<string>, start: Option<int>,
                decrypt: Decryptor, readZip: DirectoryReader): (r: Result<Viewer, Error>)
    requires key.None? ==> start.None?
    ensures r.Success? ==> Valid(r.value)
    ensures r.Success? ==> forall k :: 0 <= k < |r.value.list| ==> Accepts(r.value.list[k].name)
    ensures key.Some? && !WellFormed(archive) ==> r == Failure(MalformedEnvelope)
    ensures key.Some? && Unpack(archive, key.value, decrypt).Failure? ==>
              r == Failure(Unpack(archive, key.value, decrypt).error)
    ensures key.Some? ==>
              (r.Success? <==>
                 Unpack(archive, key.value, decrypt).Success?
                 && |Selected(readZip(Unpack(archive, key.value, decrypt).value))| > 0)
    ensures key.Some? && r.Success? ==>
              r.value.list == Selected(readZip(Unpack(archive, key.value, decrypt).value))
    ensures key.Some? && Unpack(archive, key.value, decrypt).Success?
            && |Selected(readZip(Unpack(archive, key.value, decrypt).value))| == 0 ==>
              r == Failure(NoImagesFound)
    ensures key.None? ==> (r.Success? <==> |Selected(readZip(archive))| > 0)
    ensures key.None? && r.Success? ==> r.value.list == Selected(readZip(archive))
    ensures key.None? && r.Failure? ==> r.error == NoImagesFound
    ensures r.Success? && start.None? ==> r.value.currentIndex == 0
    ensures r.Success? && start.Some? ==>
              r.value.currentIndex == StartIndex(start.value, |r.value.list|)
    ensures r.Success? && start.Some? && 1 <= start.value <= |r.value.list| ==>
              r.value.currentIndex == start.value - 1
    ensures r.Success? && start.Some? && start.value > |r.value.list| ==>
              r.value.currentIndex == |r.value.list| - 1
  {
    var zip :=
      if key.Some? then Unpack(archive, key.value, decrypt) else Success(archive);
    match zip
    case Failure(err) => Failure(err)
    case Success(raw) =>
      var list := Selected(readZip(raw));
      if |list| == 0 then
        Failure(NoImagesFound)
      else
        var index := match start case None => 0 case Some(k) => StartIndex(k, |list|);
        Success(Viewer(list, index))
  }

  /** `next`: show the following item, wrapping to the first; the list is untouched. */
  function NextPhoto(v: Viewer): (r: Viewer)
    requires Valid(v)
    ensures Valid(r) && r.list == v.list
    ensures r.currentIndex == (v.currentIndex + 1) % |v.list|
  {
    v.(currentIndex := Next(v.currentIndex, |v.list|))
  }

  /** `prev`: show the preceding item, wrapping to the last; the list is untouched. */
  function PrevPhoto(v: Viewer): (r: Viewer)
    requires Valid(v)
    ensures Valid(r) && r.list == v.list
    ensures r.currentIndex == (v.currentIndex - 1 + |v.list|) % |v.list|
  {
    v.(currentIndex := Prev(v.currentIndex, |v.list|))
  }

  /**
   * A directory holding `photo1.jpg`, its macOS metadata twin and a text file
   * yields a catalog of exactly the one photo.
   */
  lemma MixedArchiveKeepsOnePhoto(data: string, meta: string, notes: string, size: nat)
    ensures Selected([Entry("photo1.jpg", size, data),
                      Entry("__MACOSX/photo1.jpg", size, meta),
                      Entry("notes.txt", size, notes)])
            == [Item(data, size, "photo1.jpg")]
  {
    var entries := [Entry("photo1.jpg", size, data),
                    Entry("__MACOSX/photo1.jpg", size, meta),
                    Entry("notes.txt", size, notes)];
    LengthBoundary();
    MacMetadataDropped();
    ShortNamesDropped("notes.txt");
    assert entries[..1][..0] == [];
    assert Selected(entries[..1]) == [Item(data, size, "photo1.jpg")];
    assert entries[..2][..1] == entries[..1];
    assert Selected(entries[..2]) == [Item(data, size, "photo1.jpg")];
    assert entries[..3] == entries;
  }

  /** An archive whose names carry no image extension makes start-up fail. */
  lemma NoImagesFails(archive: string, decrypt: Decryptor, readZip: DirectoryReader)
    requires forall i :: 0 <= i < |readZip(archive)| ==> !HasImageExtension(readZip(archive)[i].name)
    ensures Open(archive, None, None, decrypt, readZip) == Failure(NoImagesFound)
  {
    NoImagesSelectsNothing(readZip(archive));
  }

  /**
   * End to end with a key: a well-formed container whose payload decrypts to an
   * archive holding `photo1.jpg`, its macOS metadata twin and a text file opens
   * on that one photo.
   */
  lemma KeyedMixedArchiveOpens(archive: string, key: string, zip: string,
                               decrypt: Decryptor, readZip: DirectoryReader,
                               data: string, meta: string, notes: string, size: nat)
    requires WellFormed(archive)
    requires decrypt(archive[IvLength + 1..], archive[..IvLength], key) == Some(zip)
    requires readZip(zip) == [Entry("photo1.jpg", size, data),
                              Entry("__MACOSX/photo1.jpg", size, meta),
                              Entry("notes.txt", size, notes)]
    ensures Open(archive, Some(key), None, decrypt, readZip)
            == Success(Viewer([Item(data, size, "photo1.jpg")], 0))
  {
    MixedArchiveKeepsOnePhoto(data, meta, notes, size);
  }
}
