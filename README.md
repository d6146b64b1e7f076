# edman_web file manager, modelled in Dafny

`edman_web.file_manager.FileManager` is the web layer's handle on a document
database whose documents may list attachments, stored as files in GridFS.
It uploads a file and appends its id to a document's attachment list,
deletes attachments (references first, blobs afterwards), downloads a file
(with transparent gzip decompression), and builds thumbnail and image
dicts for the image-like files of a list.

The model is a class `FileManager` with two maps: `docs`, the documents by
collection and `_id`, and `blobs`, the GridFS table of bytes and filename by
id. What the stores and libraries decide is passed in as data:

- the bytes `file.stream.read()` returns or the exception it raises
  (`StreamRead`);
- the id `fs.put` assigns, its GridFSError, or any other exception it raises
  (`PutOutcome`);
- the modified count `replace_one` reports or its exception (`ReplaceOutcome`);
- `gzip.decompress`, `mimetypes.guess_type`, `base64.b64encode`, `bytes.decode`
  with the caller's codec, and the two
  thumbnail renderers, as function values of a `Library` record.

Exceptions are values of `Error` inside a `Result`.

Files:

- `edman.dfy` (module `Edman`): ObjectIds (kept as their canonical 24-digit
  lower-case hex text, so two ids are equal exactly when their 12 bytes are)
  and their conversion, documents,
  blobs and the errors. It also holds the inherited edman helpers
  `file_list_attachment`, `file_list_replace` and `fs_delete`. Their source
  is not part of this model, so they are specified by what the repository's
  tests show of them.
- `path_ext.dfy` (module `PathExt`): POSIX `os.path.splitext`.
- `thumbnails.dfy` (module `Thumbnails`): `extract_thumb_list`, plus `Collect`,
  the dict that the thumbnail and image loops must build.
- `file_manager.dfy` (module `FileManagement`): the class and its methods.

In these places the model follows the code, which a reader might expect to
behave otherwise:

- Extension matching in `extract_thumb_list` is exact and case-sensitive.
  `c.PNG` is not selected by `png`.
- `file_delete` deletes every id of the delete list from GridFS, including
  ids the document never listed. They are not skipped.
- `file_delete` on a document with no attachment key raises `KeyError`
  (`MissingAttachmentKey`). It does not treat the key as an empty list.
- `web_grid_in` has no compression option. It stores the raw stream bytes
  with only `filename` as metadata. The test at
  tests/test_file_manager.py:355 passes `compress=False`, which the code
  does not accept.

## Model

| member | source | states |
|---|---|---|
| `Edman.LowerHexDigit` | edman_web/file_manager.py:94-98 | an upper-case hex digit becomes its lower-case letter (code point plus 32); any other hex digit is kept |
| `Edman.ToObjectId` | edman_web/file_manager.py:94-98 | an ObjectId passes through; a string converts exactly when it is 24 hex digits, each upper-case digit turned into its lower-case letter (code point plus 32) and every other digit kept; anything else is `InvalidObjectId` |
| `Edman.ToObjectIdRoundTrip` | edman_web/file_manager.py:94-98 | the text of any ObjectId converts back to that same ObjectId |
| `Edman.ToObjectIdIgnoresCase` | edman_web/file_manager.py:138-141 | two valid id strings give the same ObjectId exactly when they are equal up to letter case, so look-ups and the set difference of the delete list do not see case |
| `Edman.ConvertAll` | edman_web/file_manager.py:138 | converting the delete list succeeds exactly when every element converts; then each element maps to its ObjectId, position by position; otherwise `InvalidObjectId` |
| `Edman.AttachList` | tests/test_file_manager.py:327-338 | `file_list_attachment` keeps the other fields and appends the new ids to the attachment list, creating the key when it is absent |
| `Edman.ReplaceList` | tests/test_file_manager.py:211-217 | `file_list_replace` keeps the other fields and sets the attachment list to the given ids; the key is absent exactly when that list is empty |
| `Edman.RemoveRefs` | edman_web/file_manager.py:141 | `list(set(refs) - set(del))` has no duplicates, and holds an id exactly when `refs` has it and `del` does not |
| `Edman.Without` | edman_web/file_manager.py:155 | after `fs_delete(ids)` a blob is present exactly when it was present and is not listed; the remaining blobs are unchanged |
| `Edman.WithoutIdempotent` | edman_web/file_manager.py:52-60 | running `fs_delete` twice on the same ids, as the failed-upload path does, gives the same table as running it once |
| `Edman.WithoutFresh` | edman_web/file_manager.py:54 | deleting a freshly inserted id gives back exactly the table it was inserted into |
| `PathExt.RFind` | edman_web/file_manager.py:170 | the index `splitext` searches from is the last occurrence of the character, or -1 when there is none |
| `PathExt.SplitExt` | edman_web/file_manager.py:170 | `os.path.splitext` splits the name into root and extension that concatenate back to the name; the extension is empty or one dot followed by neither dot nor slash; a non-empty extension has a non-dot character before it in the last path component |
| `PathExt.Extension` | edman_web/file_manager.py:170 | `splitext(name)[1][1:]` contains no dot and no slash, and a non-empty one is what follows the name's final dot |
| `PathExt.ExtensionOf` | edman_web/file_manager.py:170 | a name `stem.e` has extension `e` when `e` has no dot or slash and the stem's last component has a non-dot character |
| `PathExt.NoDotNoExtension` | edman_web/file_manager.py:170 | a name with no dot in its last path component has empty extension |
| `Thumbnails.ExtractThumbList` | edman_web/file_manager.py:170-172 | the selection is no longer than the input and every selected extension is in the suffix list |
| `Thumbnails.Keep` | edman_web/file_manager.py:171-172 | one file gives at most one pair, and only one whose extension is in the suffix list |
| `Thumbnails.ExtractThumbListAppend` | edman_web/file_manager.py:170-172 | selecting from `a + b` gives the selection of `a` followed by that of `b`, so input order is kept |
| `Thumbnails.ExtractThumbListSingle` | edman_web/file_manager.py:171-172 | one file gives `[(id, ext)]` when its extension is in the list, otherwise `[]` |
| `Thumbnails.ExtractThumbListMembers` | edman_web/file_manager.py:170-172 | a pair is selected exactly when some input file has that id and that extension, and the extension is in the suffix list |
| `Thumbnails.KeepPlain` | tests/test_file_manager.py:120-128 | a file `stem.e` (plain stem and extension, like `abc.jpg`) is kept as `(id, e)` exactly when `e` is in the suffix list |
| `Thumbnails.ExtractThumbListCaseSensitive` | edman_web/file_manager.py:171-172 | `c.PNG` is not selected by the suffixes `jpg` and `png` |
| `Thumbnails.Collect` | edman_web/file_manager.py:254-277 | the dict the loops build, entries added in order, the first failing item aborting; a failed result carries the error of one of the items |
| `Thumbnails.CollectDone` | edman_web/file_manager.py:277 | a loop that has run over every candidate has built the whole dict |
| `Thumbnails.CollectStep` | edman_web/file_manager.py:275 | each successful item adds `{data, suffix}` under its id to the dict built so far |
| `Thumbnails.CollectOk` | edman_web/file_manager.py:254-277 | the loop yields a dict exactly when every item's download and render succeed |
| `Thumbnails.CollectFirstError` | edman_web/file_manager.py:257-273 | when item `i` is the first to fail, the result is that item's error and no partial dict |
| `Thumbnails.CollectAbort` | edman_web/file_manager.py:257-273 | an item that fails after a run of successful ones aborts the whole loop with its error |
| `Thumbnails.CollectKeys` | edman_web/file_manager.py:254-277 | a successful dict has exactly the candidates' ids as keys |
| `Thumbnails.CollectEntry` | edman_web/file_manager.py:275 | an id's entry comes from its last occurrence among the candidates, with that candidate's data and suffix |
| `FileManagement.FileManager.FindDoc` | edman_web/file_manager.py:36-40 | finds the target document's key; a bad id is `InvalidObjectId`, and a missing document is `DocumentNotFound` |
| `FileManagement.FileManager.ReplaceOne` | edman_web/file_manager.py:50-52 | the document is replaced exactly when the store reports one modification; the blobs are never touched |
| `FileManagement.FileManager.FsDelete` | edman_web/file_manager.py:155 | the blob table becomes `Without(old blobs, ids)`; the documents are unchanged |
| `FileManagement.FileManager.WebGridIn` | edman_web/file_manager.py:62-83 | the error for a failed stream read (OSError, or another exception) and for a failed put (a GridFSError is wrapped, any other exception passes through); on success, exactly one new blob holding the uploaded bytes and filename, whose id is returned as a one-element list; on failure no blob is added |
| `FileManagement.FileManager.WebUpload` | edman_web/file_manager.py:36-60 | errors in order: id, document, stream, put, then the replace; a missing document fails before any blob is stored; on success the new blob holds the uploaded bytes and its id is appended to the document's attachments; on every failure, including a replace that modifies nothing or raises, blobs and documents end as they began; the every-reference-resolves invariant is preserved |
| `FileManagement.FileManager.FileDelete` | edman_web/file_manager.py:120-157 | checks in order: id, document, empty list (`EmptyDeleteList`), unconvertible id, missing attachment key; none of these changes anything; a replace that raises or does not report one modification deletes no blob; on success the document lists the old ids minus the deleted ones (key dropped when none remain) and every listed id is deleted from GridFS |
| `FileManagement.FileManager.FileDownload` | edman_web/file_manager.py:94-118 | a string that is not an ObjectId is `InvalidObjectId` regardless of the store; a missing blob is `FileNotFound`; content starting `1f 8b` is decompressed (failure is `DecompressFailed`), and any other content is returned byte for byte; the filename is the stored one, the mimetype is guessed from it |
| `FileManagement.FileManager.ThumbItem` | edman_web/file_manager.py:257-273 | one iteration: a download error is passed on; otherwise the content is rendered by OpenCV when the method is `opencv` and by Pillow otherwise, and a failed render is `ThumbnailFailed` |
| `FileManagement.FileManager.ImageItem` | edman_web/file_manager.py:294-303 | one iteration: a download error is passed on; otherwise the content is base64-encoded and decoded with `file_decode`, and a failed decode is `DecodeFailed` |
| `FileManagement.FileManager.GetThumbnailsProcedure` | edman_web/file_manager.py:240-277 | the result is `Collect` over the files `extract_thumb_list` selects: success exactly when every download and render succeeds, keys exactly the selected ids, each id's entry the rendered data of its last occurrence with its suffix |
| `FileManagement.FileManager.RenderThumbnails` | edman_web/file_manager.py:254-277 | the loop over the selected files builds exactly `Collect` of their per-item results, stopping at the first failure |
| `FileManagement.FileManager.GetImagesProcedure` | edman_web/file_manager.py:280-305 | the result is `Collect` over the selected files: success exactly when every download and decode succeeds, keys exactly the selected ids, each id's entry the decoded base64 text of its last occurrence with its suffix |
| `FileManagement.FileManager.EncodeImages` | edman_web/file_manager.py:291-305 | the loop over the selected files builds exactly `Collect` of their per-item results, stopping at the first failure |

## Left out

- Image decoding, resizing and encoding in `generate_thumbnail` and
  `generate_thumbnail2` (Pillow, OpenCV, imutils). These are foreign codecs
  with floating-point resampling. They appear only as the `pillow` and
  `opencv` functions of `Library`, which may fail.
- `gzip.decompress`, base64 encoding, `bytes.decode` and
  `mimetypes.guess_type` are library calls. They are uninterpreted functions
  of `Library`, so the model does not know that base64 text is plain ASCII
  and always decodes under `utf-8`.
- MongoDB and GridFS connectivity. `find_one` and `replace_one` are map
  look-ups and updates, and the replace outcome is an input. Concurrent
  writers are seen only through that outcome.
- ObjectId format: a string id is valid when it is 24 hex digits, of either
  case. bson's 12-byte `bytes` form is not modelled, and neither is its
  acceptance of whitespace through `bytes.fromhex`.
- No model of `gridfs.errors.GridFSError` from `fs.get` other than NoFile,
  which is re-raised at edman_web/file_manager.py:105-106. No model of an
  exception from `content.read()` either. The store is only asked whether
  the id is present.
- Edman's `fs_delete` is assumed not to fail. An exception from it on the
  compensation path would reach the caller in place of the original error,
  and the model does not show that.
- The order of `list(set(...) - set(...))` is left open by Python.
  `RemoveRefs` keeps first occurrences in the old order, and only its
  contents and lack of duplicates are stated.
- FileManagement.FileManager.FileDelete: keeps the every-reference-resolves
  invariant only when no other document lists a deleted id. The source
  deletes every listed blob without looking at other documents.
- The result dicts of `get_thumbnails_procedure` and `get_images_procedure`
  are Python dicts, which keep insertion order (edman_web/file_manager.py:275,
  303). The model's `map` has no order, so the order of the keys is not stated.
- An exception raised by edman's `file_list_attachment` inside the try at
  edman_web/file_manager.py:48-49 would also trigger the compensation at
  :57-60. Its source is not part of this model and the model lets it
  always succeed, so that path is not represented.
- A `FileStorage` whose `filename` is `None` is not modelled. The filename
  is always a string.
- tests/test_file_manager.py:404 reads the downloaded content as a stream.
  The code returns bytes, and the model follows the code.
- `edman_web/search_manager.py` (`get_documents`) only checks the id and
  forwards to the graph engine's `find` or `get_tree`, which live in the
  edman library. That library is not part of this model.
- Test fixtures (database users, temporary files, tear-down) set up the
  environment and are not modelled.
