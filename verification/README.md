# Secure Photo Viewer — core model in Dafny

This project models the part of the Secure Photo Viewer that does not depend on
the window or the graphics library. The viewer shows images from a zip archive
that was encrypted with AES and stored as `<IV>:<Base64 of encrypted zip>`.
The modelled part has four pieces:

- **Envelope check and split** (`unpack`). The container is rejected unless its first
  `':'` is at offset 32. The IV is then characters `[0, 32)`, and the Base64 payload
  is everything from offset 33. AES decryption and Base64 decoding are an abstract
  function passed in as a parameter (`Session.Decryptor`).
- **Suffix test** (`endsWith`) and the first-occurrence search behind
  `find_first_of` (`Strings`).
- **Entry filter and list construction** (`createList`). The zip directory is an
  input sequence of `(name, size, data)` entries. The list keeps, in directory
  order, every entry whose name passes all of these tests:
  - it ends in `.jpg`, `.png`, `.jpeg`, `.gif` or `.svg` (case-sensitive);
  - it is longer than 9 characters;
  - its first 9 characters are not `__MACOSX/`.
- **Navigation** (`next`, `prev`) and the clamp of the 1-based start index in `main`.
  These are modelled as pure functions on the index and the list size (`Navigator`),
  lifted to a viewer state (`Session.Viewer`).

Modules: `Wrappers` (Option/Result), `Strings`, `Envelope`, `Archive`,
`Navigator`, `Session` (start-up pipeline and viewer state). A `string` here is a
C++ `std::string`: one `char` per byte, so lengths and offsets count bytes.

Two edge cases of the code are worth stating plainly:

- **Separator check.** The code tests whether the *first* `':'` is at offset 32,
  not only the character at offset 32 (main.cc:166). So a `':'` at any earlier
  offset rejects the container, even when offset 32 also holds one
  (`Envelope.EarlySeparatorRejects`).
- **Short names.** Because the length test is part of the conjunction
  (main.cc:210-211), every name of 9 characters or fewer is dropped, including
  `photo.jpg` and an entry named exactly `__MACOSX/`
  (`Archive.ShortNamesDropped`, `Archive.LengthBoundary`).

An empty list is the error `NoImagesFound`. The code has no such check: it goes on
to `navigate()`, and `list.at(0)` there throws, ending the program (main.cc:302).

## Model

| member | source | states |
|---|---|---|
| `Strings.EndsWith` | main.cc:145-152 | true exactly when `str` is a suffix of `subject` (some drop of a prefix of `subject` leaves `str`); false whenever `str` is longer than `subject` |
| `Strings.FindFirst` | main.cc:166 | `find_first_of(':')`: `None` (npos) exactly when the character does not occur; otherwise a position that holds the character with no occurrence before it |
| `Envelope.Split` | main.cc:166-172 | accepts exactly the texts longer than 32 characters that have `':'` at offset 32 and none before; an accepted split yields a 32-character IV without `':'`, and IV + `":"` + payload rebuilds the input |
| `Envelope.SplitJoin` | main.cc:166-172 | any container built from a valid IV and any payload splits back into that same IV and payload |
| `Envelope.EarlySeparatorRejects` | main.cc:166-169 | a `':'` at any offset below 32 rejects the container, whatever offset 32 holds |
| `Session.Unpack` | main.cc:157-188 | `MalformedEnvelope` exactly when the container is not well formed; otherwise decryption gets the text after offset 33 as payload and the first 32 characters as IV. A rejected decryption gives `DecryptionFailed`; an accepted one gives its output |
| `Session.MalformedSkipsDecryption` | main.cc:166-169 | for a malformed container the result is `MalformedEnvelope` whatever the decryptor does, so no decryption is attempted |
| `Archive.HasImageExtension` | main.cc:205-209 | true exactly when the name has `.jpg`, `.png`, `.jpeg`, `.gif` or `.svg` as a suffix, compared case-sensitively |
| `Archive.Accepts` | main.cc:205-211 | true exactly when the name has an image extension, is longer than 9 characters, and does not begin with `__MACOSX/` |
| `Archive.ToItem` | main.cc:214-216 | the item keeps the entry's name, size and data unchanged |
| `Archive.Selected` | main.cc:201-218 | the list is no longer than the directory, and every item in it passes the filter |
| `Archive.Positions` | main.cc:203-212 | for any keep test (the catalog uses the filter on entry names), the positions are strictly increasing and in range; each one passes the test; every position that passes is among them |
| `Archive.SelectedFollowsPositions` | main.cc:201-217 | item k of the list is entry k of the kept positions, with name, size and data unchanged, so the list is the accepted entries in directory order |
| `Archive.SelectedMembership` | main.cc:205-216 | an entry's item is in the list iff the entry's name has an image extension, is longer than 9 characters, and does not start with `__MACOSX/` |
| `Archive.CreateList` | main.cc:193-228 | the single pass over the directory produces exactly the selected list |
| `Archive.ShortNamesDropped` | main.cc:210 | every name of 9 characters or fewer is dropped |
| `Archive.LengthBoundary` | main.cc:205-211 | `photo1.jpg` is kept, while `photo.jpg` is dropped |
| `Archive.MacMetadataDropped` | main.cc:211 | `__MACOSX/photo1.jpg` is dropped despite its image extension |
| `Archive.UpperCaseExtensionDropped` | main.cc:205-209 | the extension test is case-sensitive: `PHOTO1.JPG` is dropped |
| `Archive.NoImagesSelectsNothing` | main.cc:205-209 | a directory with no image-named entry gives an empty list |
| `Navigator.Next` | main.cc:316-324 | for `0 <= i < n`, the result is `(i + 1) mod n` and lies in `[0, n)` |
| `Navigator.Prev` | main.cc:326-334 | for `0 <= i < n`, the result is `(i - 1 + n) mod n` and lies in `[0, n)` |
| `Navigator.PrevNext` | main.cc:316-334 | `prev` undoes `next` |
| `Navigator.NextPrev` | main.cc:316-334 | `next` undoes `prev` |
| `Navigator.NextTimesAdvances` | main.cc:316-324 | `k <= n` presses of `next` land on `i + k`, wrapped once past the end |
| `Navigator.PrevTimesRetreats` | main.cc:326-334 | `k <= n` presses of `prev` land on `i - k`, wrapped once past the start |
| `Navigator.NextCycle` | main.cc:316-324 | `n` presses of `next` return to the starting index |
| `Navigator.PrevCycle` | main.cc:326-334 | `n` presses of `prev` return to the starting index |
| `Navigator.StartIndex` | main.cc:379 | the start index is at least 0 and, for a non-empty list, below `n`. It is `k - 1` for `1 <= k <= n`, 0 for `k <= 1` or an empty list, and `n - 1` for `k > n` |
| `Session.Open` | main.cc:346-380 | callable only with a key when a start index is given. A successful start-up has a non-empty list of accepted items and an index inside it. With a key: a malformed container fails with `MalformedEnvelope`, any unpack failure is passed on unchanged, start-up succeeds iff unpacking succeeds and the decrypted archive's selection is non-empty, the list is that selection, and an empty selection fails with `NoImagesFound`. Without a key, the file is read as the archive, start-up succeeds iff its selection is non-empty, and the only failure is `NoImagesFound`. The index is 0 with no start argument, and otherwise the clamp of `k` (`k - 1` for `1 <= k <= n`, `n - 1` for `k > n`) |
| `Session.NextPhoto` | main.cc:316-324 | keeps the viewer valid and the list unchanged, and moves to `(i + 1) mod n` |
| `Session.PrevPhoto` | main.cc:326-334 | keeps the viewer valid and the list unchanged, and moves to `(i - 1 + n) mod n` |
| `Session.MixedArchiveKeepsOnePhoto` | main.cc:201-218 | a directory of `photo1.jpg`, `__MACOSX/photo1.jpg` and `notes.txt` yields exactly one item, `photo1.jpg` |
| `Session.NoImagesFails` | main.cc:205-221 | a plain archive with no image-named entry makes start-up fail with `NoImagesFound` |
| `Session.KeyedMixedArchiveOpens` | main.cc:352-380 | a well-formed container whose payload decrypts to an archive of `photo1.jpg`, `__MACOSX/photo1.jpg` and `notes.txt` opens on exactly that one photo, at index 0 |

## Left out

- AES decryption and Base64 decoding (main.cc:174-177): calls into the external `mine` library. They are the parameter `Session.Decryptor`. A thrown decryption error is that function returning `None`.
- Temporary file name, writing and removal (main.cc:179-187, 222-226): file I/O and randomness. The decrypted text is passed straight to the directory reader.
- Zip opening and reading through `libzippp` (main.cc:198-201, 214, 219): a foreign library, here the parameter `Session.DirectoryReader`. An archive that fails to open is a reader that returns no entries. libzippp is not part of this model.
- Reading the archive file from disk (main.cc:162-164): I/O. `Session.Open` takes the file's contents.
- Image decoding in the `Item` constructors (main.cc:91-101): a graphics-library call. `Archive.Item` carries only data, size and name.
- Zoom, pan, rotation and the view reset done on each navigation (`reset`, `zoomIn`, `zoomOut`, `move*IfZoomed`, `navigate`, main.cc:233-314): floating-point sprite state in the graphics library.
- Window, event loop, fullscreen toggle, download button, saving an image and the window title (main.cc:292-295, 371-522): UI glue and file I/O.
- Usage message when no archive argument is given, and the `atoi` parsing of the start argument (main.cc:338-342, 379): command-line glue. `Session.Open` takes the key and the start index as already-split optional arguments, and requires no start index without a key, as the argument positions force (main.cc:352, 377).
- Navigator.StartIndex: uses unbounded integers, so the overflow of `atoi(...) - 1` at the smallest `int` is not modelled.
- Navigator.Next: does not model 32-bit `int` overflow of `currentIndex`, because the index is always below the list size.
- Strings stand for C++ byte strings, one `char` per byte, so `|s|` is `size()` and every length and offset counts bytes. `DirectoryReader` must return entry names as their bytes: `été1.jpg` in UTF-8 is 10 chars here, not 8.
- Console output and the error exit (main.cc:160, 181, 196, 221, 224, 309-312, 358-362): the progress messages are I/O, and the message on `std::cerr` with exit status 1 after a rejected container is `Failure(MalformedEnvelope)` here.
