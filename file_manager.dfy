/** `FileManager`: uploads, downloads and deletes a document's attachments,
    keeping the document's attachment list and the GridFS blob table in
    step, and builds thumbnail and image dicts for a list of files.
    The document collection and GridFS are the two maps of the class; what
    the stores and foreign libraries decide is passed in as an outcome. */
module FileManagement {
  import opened Edman
  import opened PathExt
  import opened Thumbnails

  /** A document's address: collection name and `_id`. */
  datatype DocKey = DocKey(collection: string, id: ObjectId)

  /** What `file.stream.read()` does: returns the bytes or raises. */
  datatype StreamRead = Read(bytes: seq<byte>) | OSErrorRaised | OtherErrorRaised

  /** The uploaded werkzeug `FileStorage`. */
  datatype FileStorage = FileStorage(stream: StreamRead, filename: string)

  /** What `fs.put` does: stores under the id GridFS assigns, raises a
      GridFSError, or raises some other exception. */
  datatype PutOutcome = Assigned(id: ObjectId) | GridFsError | OtherPutError

  /** What `replace_one` does: reports a modified count, or raises. */
  datatype ReplaceOutcome = Acknowledged(modifiedCount: nat) | ReplaceException

  type Size = (int, int)

  /** The triple `file_download` returns. */
  datatype Downloaded = Downloaded(content: seq<byte>, filename: string, mimetype: Option<string>)

  /** The foreign library calls, as functions: `gzip.decompress` (None when
      it raises), `mimetypes.guess_type(..)[0]`, `base64.b64encode`,
      `bytes.decode(codec)` (None when it raises) and the two
      thumbnail renderers `generate_thumbnail` (Pillow) and
      `generate_thumbnail2` (OpenCV), None when they raise. */
  datatype Library = Library(
    gunzip: seq<byte> -> Option<seq<byte>>,
    guessType: string -> Option<string>,
    b64encode: seq<byte> -> seq<byte>,
    decode: (seq<byte>, string) -> Option<string>,
    pillow: (seq<byte>, string, Size) -> Option<string>,
    opencv: (seq<byte>, string, Size, int) -> Option<string>)

  /** Content starts with the gzip magic bytes 1f 8b. */
  predicate IsGzip(data: seq<byte>) {
    |data| >= 2 && data[0] == 0x1f && data[1] == 0x8b
  }

  class FileManager {
    /** The document collections, by collection name and `_id`. */
    var docs: map<DocKey, Doc>
    /** GridFS: each stored file's bytes and filename, by id. */
    var blobs: map<ObjectId, Blob>

    constructor (docs0: map<DocKey, Doc>, blobs0: map<ObjectId, Blob>)
      ensures docs == docs0 && blobs == blobs0
    {
      docs := docs0;
      blobs := blobs0;
    }

    /** Every attachment a document lists is a stored blob. */
    ghost predicate Consistent()
      reads this
    {
      forall k, x :: k in docs && x in Refs(docs[k]) ==> x in blobs
    }

    /** No document other than the one at `key` lists any of `ids`. */
    ghost predicate OnlyReferencedBy(key: DocKey, ids: seq<ObjectId>)
      reads this
    {
      forall k, x :: k in docs && k != key && x in Refs(docs[k]) ==> x !in ids
    }

    /** `Utils.conv_objectid(oid)` then `find_one({'_id': oid})`: the key of
        the target document, or why there is none. */
    function FindDoc(collection: string, oid: IdArg): (r: Result<DocKey>)
      reads this
      ensures r.Ok? <==> ToObjectId(oid).Ok? && DocKey(collection, ToObjectId(oid).value) in docs
      ensures r.Ok? ==> r.value == DocKey(collection, ToObjectId(oid).value)
      ensures r.Err? ==> r.error == if ToObjectId(oid).Err? then InvalidObjectId else DocumentNotFound
    {
      match ToObjectId(oid)
      case Err(e) => Err(e)
      case Ok(id) => if DocKey(collection, id) in docs then Ok(DocKey(collection, id)) else Err(DocumentNotFound)
    }

    /** `replace_one({'_id': ..}, newDoc)`: the document is replaced exactly
        when the store reports one modification. */
    method ReplaceOne(key: DocKey, newDoc: Doc, outcome: ReplaceOutcome) returns (r: Result<nat>)
      modifies this
      ensures blobs == old(blobs)
      ensures outcome.ReplaceException? ==> r == Err(ReplaceRaised)
      ensures outcome.Acknowledged? ==> r == Ok(outcome.modifiedCount)
      ensures docs == if outcome == Acknowledged(1) then old(docs)[key := newDoc] else old(docs)
    {
      match outcome
      case ReplaceException =>
        r := Err(ReplaceRaised);
      case Acknowledged(n) =>
        if n == 1 {
          docs := docs[key := newDoc];
        }
        r := Ok(n);
    }

    /** `fs_delete(ids)`: deletes each id from GridFS in turn; an absent id
        is skipped. */
    method FsDelete(ids: seq<ObjectId>)
      modifies this
      ensures docs == old(docs)
      ensures blobs == Without(old(blobs), ids)
    {
      var i := 0;
      while i < |ids|
        invariant 0 <= i <= |ids|
        invariant docs == old(docs)
        invariant blobs == Without(old(blobs), ids[..i])
      {
        assert ids[..i + 1] == ids[..i] + [ids[i]];
        blobs := blobs - {ids[i]};
        i := i + 1;
      }
      assert ids[..i] == ids;
    }

    /** `web_grid_in`: reads the upload and stores it in GridFS with only its
        filename as metadata, returning the list of inserted ids. */
    method WebGridIn(file: FileStorage, put: PutOutcome) returns (r: Result<seq<ObjectId>>)
      modifies this
      ensures docs == old(docs)
      ensures file.stream.OSErrorRaised? ==> r == Err(StreamReadFailed)
      ensures file.stream.OtherErrorRaised? ==> r == Err(StreamError)
      ensures file.stream.Read? ==> (r.Ok? <==> put.Assigned? && put.id !in old(blobs))
      ensures file.stream.Read? && r.Err? ==> r.error == if put.OtherPutError? then PutRaised else GridFsPutFailed
      ensures r.Ok? ==> r.value == [put.id] && put.id !in old(blobs)
      ensures r.Ok? ==> blobs == old(blobs)[put.id := Blob(file.stream.bytes, file.filename)]
      ensures r.Err? ==> blobs == old(blobs)
    {
      var inserted: seq<ObjectId> := [];
      match file.stream
      case OSErrorRaised =>
        return Err(StreamReadFailed);
      case OtherErrorRaised =>
        return Err(StreamError);
      case Read(f) =>
        if put.OtherPutError? {
          return Err(PutRaised);
        }
        // A GridFS id that is already taken makes `put` raise FileExists.
        if put.GridFsError? || put.id in blobs {
          return Err(GridFsPutFailed);
        }
        blobs := blobs[put.id := Blob(f, file.filename)];
        inserted := inserted + [put.id];
        r := Ok(inserted);
    }

    /** `web_upload`: checks the document, stores the blob, then replaces
        the document with the new id appended to its attachments; when the
        replace modifies nothing or raises, the blob is deleted again. */
    method WebUpload(collection: string, oid: IdArg, upFile: FileStorage, put: PutOutcome, replace: ReplaceOutcome)
      returns (r: Result<()>)
      modifies this
      ensures old(FindDoc(collection, oid)).Err? ==>
        r == Err(old(FindDoc(collection, oid)).error)
      ensures old(FindDoc(collection, oid)).Ok? && !upFile.stream.Read? ==>
        r == Err(if upFile.stream.OSErrorRaised? then StreamReadFailed else StreamError)
      ensures old(FindDoc(collection, oid)).Ok? && upFile.stream.Read? && !(put.Assigned? && put.id !in old(blobs)) ==>
        r == Err(if put.OtherPutError? then PutRaised else GridFsPutFailed)
      ensures old(FindDoc(collection, oid)).Ok? && upFile.stream.Read? && put.Assigned? && put.id !in old(blobs) ==>
        r == if replace == Acknowledged(1) then Ok(()) else Err(DocumentUpdateFailed)
      ensures r.Err? ==> blobs == old(blobs) && docs == old(docs)
      ensures r.Ok? ==>
        var key := old(FindDoc(collection, oid)).value;
        && upFile.stream.Read? && put.Assigned? && put.id !in old(blobs)
        && blobs == old(blobs)[put.id := Blob(upFile.stream.bytes, upFile.filename)]
        && docs == old(docs)[key := AttachList(old(docs)[key], [put.id])]
        && put.id in Refs(docs[key])
      ensures old(Consistent()) ==> Consistent()
    {
      var found := FindDoc(collection, oid);
      if found.Err? {
        return Err(found.error);
      }
      var key := found.value;
      var doc := docs[key];
      ghost var blobs0 := blobs;
      var inserted := WebGridIn(upFile, put);
      if inserted.Err? {
        return Err(inserted.error);
      }
      var insertedIds := inserted.value;
      var newDoc := AttachList(doc, insertedIds);
      var replaced := ReplaceOne(key, newDoc, replace);
      if replaced.Err? {
        // The outer handler deletes the new blob and re-raises.
        FsDelete(insertedIds);
        WithoutFresh(blobs0, put.id, Blob(upFile.stream.bytes, upFile.filename));
        return Err(DocumentUpdateFailed);
      }
      if replaced.value != 1 {
        // Deleted here, then again by the outer handler that catches the raise.
        FsDelete(insertedIds);
        FsDelete(insertedIds);
        WithoutFresh(blobs0, put.id, Blob(upFile.stream.bytes, upFile.filename));
        WithoutIdempotent(blobs0, insertedIds);
        return Err(DocumentUpdateFailed);
      }
      r := Ok(());
    }

    /** The checks `file_delete` makes before it touches anything: the
        document exists, the delete list is non-empty, every listed id is an
        ObjectId and the document has an attachment key. */
    predicate DeleteChecksPass(collection: string, oid: IdArg, deleteList: seq<IdArg>)
      reads this
    {
      && FindDoc(collection, oid).Ok?
      && deleteList != []
      && ConvertAll(deleteList).Ok?
      && docs[FindDoc(collection, oid).value].attachments.Some?
    }

    /** `file_delete`: removes the listed ids from the document's
        attachments (dropping the key when none remain) and, only once the
        replace reports one modification, deletes the listed blobs. */
    method FileDelete(collection: string, oid: IdArg, deleteList: seq<IdArg>, replace: ReplaceOutcome)
      returns (r: Result<()>)
      modifies this
      ensures old(FindDoc(collection, oid)).Err? ==>
        r == Err(old(FindDoc(collection, oid)).error)
      ensures old(FindDoc(collection, oid)).Ok? && deleteList == [] ==>
        r == Err(EmptyDeleteList)
      ensures old(FindDoc(collection, oid)).Ok? && deleteList != [] && ConvertAll(deleteList).Err? ==>
        r == Err(InvalidObjectId)
      ensures (old(FindDoc(collection, oid)).Ok? && deleteList != [] && ConvertAll(deleteList).Ok? &&
               old(docs)[old(FindDoc(collection, oid)).value].attachments.None?) ==>
        r == Err(MissingAttachmentKey)
      ensures old(DeleteChecksPass(collection, oid, deleteList)) ==>
        r == match replace
             case ReplaceException => Err(ReplaceRaised)
             case Acknowledged(n) => if n == 1 then Ok(()) else Err(ReferenceUpdateFailed)
      ensures r.Err? ==> blobs == old(blobs) && docs == old(docs)
      ensures r.Ok? ==>
        var key := old(FindDoc(collection, oid)).value;
        var items := ConvertAll(deleteList).value;
        && docs == old(docs)[key := ReplaceList(old(docs)[key], RemoveRefs(Refs(old(docs)[key]), items))]
        && blobs == Without(old(blobs), items)
      ensures (r.Ok? && old(Consistent()) &&
               old(OnlyReferencedBy(FindDoc(collection, oid).value, ConvertAll(deleteList).value))) ==>
        Consistent()
    {
      var found := FindDoc(collection, oid);
      if found.Err? {
        return Err(found.error);
      }
      var key := found.value;
      var doc := docs[key];
      if deleteList == [] {
        return Err(EmptyDeleteList);
      }
      var converted := ConvertAll(deleteList);
      if converted.Err? {
        return Err(converted.error);
      }
      var deleteItems := converted.value;
      if doc.attachments.None? {
        return Err(MissingAttachmentKey);
      }
      var diff := RemoveRefs(doc.attachments.value, deleteItems);
      var replaceDoc := ReplaceList(doc, diff);
      var replaced := ReplaceOne(key, replaceDoc, replace);
      if replaced.Err? {
        return Err(replaced.error);
      }
      if replaced.value != 1 {
        return Err(ReferenceUpdateFailed);
      }
      FsDelete(deleteItems);
      r := Ok(());
    }

    /** `file_download`: checks the id, fetches the blob, and decompresses
        the content exactly when it starts with the gzip magic bytes. */
    function FileDownload(oid: IdArg, lib: Library): (r: Result<Downloaded>)
      reads this
      ensures oid.Text? && !IsValidId(oid.text) ==> r == Err(InvalidObjectId)
      ensures ToObjectId(oid).Ok? && ToObjectId(oid).value !in blobs ==> r == Err(FileNotFound)
      ensures r.Ok? ==> ToObjectId(oid).Ok? && ToObjectId(oid).value in blobs
      ensures r.Ok? ==>
        var b := blobs[ToObjectId(oid).value];
        && r.value.filename == b.filename
        && r.value.mimetype == lib.guessType(b.filename)
        && (if IsGzip(b.data) then lib.gunzip(b.data) == Some(r.value.content) else r.value.content == b.data)
      ensures ToObjectId(oid).Ok? && ToObjectId(oid).value in blobs ==>
        var b := blobs[ToObjectId(oid).value];
        (r.Err? <==> IsGzip(b.data) && lib.gunzip(b.data).None?) &&
        (r.Err? ==> r.error == DecompressFailed)
    {
      match ToObjectId(oid)
      case Err(e) => Err(e)
      case Ok(id) =>
        if id !in blobs then Err(FileNotFound)
        else
          var content := blobs[id];
          var contentData :=
            if IsGzip(content.data) then lib.gunzip(content.data) else Some(content.data);
          if contentData.None? then Err(DecompressFailed)
          else Ok(Downloaded(contentData.value, content.filename, lib.guessType(content.filename)))
    }

    /** One thumbnail: download, then render with OpenCV when asked to,
        otherwise with Pillow. */
    function ThumbItem(c: (IdArg, string), size: Size, renderMethod: string, quality: int, lib: Library): (r: Result<string>)
      reads this
      ensures FileDownload(c.0, lib).Err? ==> r == Err(FileDownload(c.0, lib).error)
      ensures FileDownload(c.0, lib).Ok? ==>
        var content := FileDownload(c.0, lib).value.content;
        var image := if renderMethod == "opencv" then lib.opencv(content, c.1, size, quality)
                     else lib.pillow(content, c.1, size);
        r == if image.Some? then Ok(image.value) else Err(ThumbnailFailed)
    {
      match FileDownload(c.0, lib)
      case Err(e) => Err(e)
      case Ok(d) =>
        var image :=
          if renderMethod == "opencv" then lib.opencv(d.content, c.1, size, quality)
          else lib.pillow(d.content, c.1, size);
        if image.Some? then Ok(image.value) else Err(ThumbnailFailed)
    }

    /** One image: download, base64-encode, then decode the base64 bytes
        to text with the codec `fileDecode`. */
    function ImageItem(c: (IdArg, string), fileDecode: string, lib: Library): (r: Result<string>)
      reads this
      ensures FileDownload(c.0, lib).Err? ==> r == Err(FileDownload(c.0, lib).error)
      ensures FileDownload(c.0, lib).Ok? ==>
        var text := lib.decode(lib.b64encode(FileDownload(c.0, lib).value.content), fileDecode);
        r == if text.Some? then Ok(text.value) else Err(DecodeFailed)
    {
      match FileDownload(c.0, lib)
      case Err(e) => Err(e)
      case Ok(d) =>
        var text := lib.decode(lib.b64encode(d.content), fileDecode);
        if text.Some? then Ok(text.value) else Err(DecodeFailed)
    }

    function ThumbItems(cands: seq<(IdArg, string)>, size: Size, renderMethod: string, quality: int, lib: Library): (rs: seq<Result<string>>)
      reads this
      ensures |rs| == |cands|
      ensures forall i :: 0 <= i < |cands| ==> rs[i] == ThumbItem(cands[i], size, renderMethod, quality, lib)
    {
      seq(|cands|, i reads this requires 0 <= i < |cands| => ThumbItem(cands[i], size, renderMethod, quality, lib))
    }

    function ImageItems(cands: seq<(IdArg, string)>, fileDecode: string, lib: Library): (rs: seq<Result<string>>)
      reads this
      ensures |rs| == |cands|
      ensures forall i :: 0 <= i < |cands| ==> rs[i] == ImageItem(cands[i], fileDecode, lib)
    {
      seq(|cands|, i reads this requires 0 <= i < |cands| => ImageItem(cands[i], fileDecode, lib))
    }

    /** `get_thumbnails_procedure`: for every selected file in order,
        download and render it, and add `{data, suffix}` under its id; the
        first failure aborts with its error. */
    method GetThumbnailsProcedure(files: seq<(IdArg, string)>, thumbnailSuffix: seq<string>, thumbnailSize: Size,
                                  renderMethod: string, quality: int, lib: Library)
      returns (r: Result<map<IdArg, Entry>>)
      ensures var cands := ExtractThumbList(files, thumbnailSuffix);
        r == Collect(cands, ThumbItems(cands, thumbnailSize, renderMethod, quality, lib))
      ensures var cands := ExtractThumbList(files, thumbnailSuffix);
        r.Ok? <==> forall i :: 0 <= i < |cands| ==> ThumbItem(cands[i], thumbnailSize, renderMethod, quality, lib).Ok?
      ensures var cands := ExtractThumbList(files, thumbnailSuffix);
        r.Ok? ==> r.value.Keys == set i | 0 <= i < |cands| :: cands[i].0
      ensures var cands := ExtractThumbList(files, thumbnailSuffix);
        r.Ok? ==> forall i :: 0 <= i < |cands| && (forall j :: i < j < |cands| ==> cands[j].0 != cands[i].0) ==>
          && ThumbItem(cands[i], thumbnailSize, renderMethod, quality, lib).Ok? && cands[i].0 in r.value
          && r.value[cands[i].0] == Entry(ThumbItem(cands[i], thumbnailSize, renderMethod, quality, lib).value, cands[i].1)
    {
      var cands := ExtractThumbList(files, thumbnailSuffix);
      r := RenderThumbnails(cands, thumbnailSize, renderMethod, quality, lib);
      CollectFacts(cands, ThumbItems(cands, thumbnailSize, renderMethod, quality, lib));
    }

    /** The loop of `get_thumbnails_procedure` over the selected files. */
    method RenderThumbnails(cands: seq<(IdArg, string)>, thumbnailSize: Size, renderMethod: string, quality: int,
                            lib: Library)
      returns (r: Result<map<IdArg, Entry>>)
      ensures r == Collect(cands, ThumbItems(cands, thumbnailSize, renderMethod, quality, lib))
    {
      ghost var items := ThumbItems(cands, thumbnailSize, renderMethod, quality, lib);
      var thumbnails: map<IdArg, Entry> := map[];
      var i := 0;
      while i < |cands|
        invariant 0 <= i <= |cands|
        invariant Collect(cands[..i], items[..i]) == Ok(thumbnails)
      {
        var (oid, ext) := cands[i];
        var content := FileDownload(oid, lib);
        if content.Err? {
          CollectAbort(cands, items, i);
          return Err(content.error);
        }
        var imageData :=
          if renderMethod == "opencv" then lib.opencv(content.value.content, ext, thumbnailSize, quality)
          else lib.pillow(content.value.content, ext, thumbnailSize);
        if imageData.None? {
          CollectAbort(cands, items, i);
          return Err(ThumbnailFailed);
        }
        CollectStep(cands, items, i, thumbnails);
        thumbnails := thumbnails[oid := Entry(imageData.value, ext)];
        i := i + 1;
      }
      CollectDone(cands, items, thumbnails);
      r := Ok(thumbnails);
    }

    /** `get_images_procedure`: for every selected file in order, download
        it, base64-encode it, decode that with `fileDecode`, and add the text
        with its suffix under its id; the first failure aborts with its
        error. */
    method GetImagesProcedure(files: seq<(IdArg, string)>, suffix: seq<string>, fileDecode: string, lib: Library)
      returns (r: Result<map<IdArg, Entry>>)
      ensures var cands := ExtractThumbList(files, suffix);
        r == Collect(cands, ImageItems(cands, fileDecode, lib))
      ensures var cands := ExtractThumbList(files, suffix);
        r.Ok? <==> forall i :: 0 <= i < |cands| ==> ImageItem(cands[i], fileDecode, lib).Ok?
      ensures var cands := ExtractThumbList(files, suffix);
        r.Ok? ==> r.value.Keys == set i | 0 <= i < |cands| :: cands[i].0
      ensures var cands := ExtractThumbList(files, suffix);
        r.Ok? ==> forall i :: 0 <= i < |cands| && (forall j :: i < j < |cands| ==> cands[j].0 != cands[i].0) ==>
          && ImageItem(cands[i], fileDecode, lib).Ok? && cands[i].0 in r.value
          && r.value[cands[i].0] == Entry(ImageItem(cands[i], fileDecode, lib).value, cands[i].1)
    {
      var cands := ExtractThumbList(files, suffix);
      r := EncodeImages(cands, fileDecode, lib);
      CollectFacts(cands, ImageItems(cands, fileDecode, lib));
    }

    /** The loop of `get_images_procedure` over the selected files. */
    method EncodeImages(cands: seq<(IdArg, string)>, fileDecode: string, lib: Library)
      returns (r: Result<map<IdArg, Entry>>)
      ensures r == Collect(cands, ImageItems(cands, fileDecode, lib))
    {
      ghost var items := ImageItems(cands, fileDecode, lib);
      var result: map<IdArg, Entry> := map[];
      var i := 0;
      while i < |cands|
        invariant 0 <= i <= |cands|
        invariant Collect(cands[..i], items[..i]) == Ok(result)
      {
        var (oid, ext) := cands[i];
        var content := FileDownload(oid, lib);
        if content.Err? {
          CollectAbort(cands, items, i);
          return Err(content.error);
        }
        var imageData := lib.decode(lib.b64encode(content.value.content), fileDecode);
        if imageData.None? {
          CollectAbort(cands, items, i);
          return Err(DecodeFailed);
        }
        CollectStep(cands, items, i, result);
        result := result[oid := Entry(imageData.value, ext)];
        i := i + 1;
      }
      CollectDone(cands, items, result);
      r := Ok(result);
    }
  }

  /** The facts the two procedures report about a collected dict. */
  lemma CollectFacts(cands: seq<(IdArg, string)>, items: seq<Result<string>>)
    requires |items| == |cands|
    ensures Collect(cands, items).Ok? <==> forall i :: 0 <= i < |items| ==> items[i].Ok?
    ensures Collect(cands, items).Ok? ==> Collect(cands, items).value.Keys == set i | 0 <= i < |cands| :: cands[i].0
    ensures Collect(cands, items).Ok? ==>
      forall i :: 0 <= i < |cands| && (forall j :: i < j < |cands| ==> cands[j].0 != cands[i].0) ==>
        items[i].Ok? && cands[i].0 in Collect(cands, items).value &&
        Collect(cands, items).value[cands[i].0] == Entry(items[i].value, cands[i].1)
  {
    CollectOk(cands, items);
    if Collect(cands, items).Ok? {
      CollectKeys(cands, items);
      forall i | 0 <= i < |cands| && (forall j :: i < j < |cands| ==> cands[j].0 != cands[i].0)
        ensures items[i].Ok? && cands[i].0 in Collect(cands, items).value &&
                Collect(cands, items).value[cands[i].0] == Entry(items[i].value, cands[i].1)
      {
        CollectEntry(cands, items, i);
      }
    }
  }
}
