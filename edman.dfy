/** The parts of the edman library that the web layer inherits from, seen
    abstractly: object ids, documents with an attachment list, the GridFS
    blob table, the errors the layer raises, and the helpers
    `conv_objectid`, `file_list_attachment`, `file_list_replace` and
    `fs_delete`, each specified by what the repository's tests exercise. */
module Edman {

  newtype byte = x: int | 0 <= x < 256

  datatype Option<+T> = None | Some(value: T)

  /** The exceptions the file manager raises or lets through. */
  datatype Error =
    | InvalidObjectId        // ValueError / bson InvalidId: not an ObjectId
    | DocumentNotFound       // EdmanDbProcessError: no document with that id
    | EmptyDeleteList        // EdmanInternalError: nothing to delete
    | MissingAttachmentKey   // KeyError: the document has no attachment key
    | StreamReadFailed       // EdmanDbProcessError: OSError reading the upload
    | StreamError            // any other exception reading the upload, re-raised
    | GridFsPutFailed        // EdmanDbProcessError wrapping a GridFSError
    | PutRaised              // any other exception from fs.put, re-raised as it is
    | DocumentUpdateFailed   // EdmanDbProcessError: upload could not update the document
    | ReferenceUpdateFailed  // EdmanDbProcessError: delete could not update the document
    | ReplaceRaised          // exception from replace_one, re-raised by file_delete
    | FileNotFound           // ValueError: no blob with that id
    | DecompressFailed       // exception from gzip.decompress
    | ThumbnailFailed        // EdmanInternalError from the thumbnail renderer
    | DecodeFailed           // exception decoding the base64 bytes with file_decode

  datatype Result<+T> = Ok(value: T) | Err(error: Error)

  /** A BSON ObjectId is 12 bytes; it is kept here as the text `str(oid)`
      prints for it, 24 lower-case hexadecimal digits, so that two ids are
      equal exactly when their bytes are. */
  predicate IsCanonicalHex(s: string) {
    |s| == 24 && forall i :: 0 <= i < |s| ==> '0' <= s[i] <= '9' || 'a' <= s[i] <= 'f'
  }

  type HexText = s: string | IsCanonicalHex(s) witness "000000000000000000000000"

  datatype ObjectId = ObjectId(hex: HexText)

  /** An id as the Python code receives it: an ObjectId instance or a str. */
  datatype IdArg = Oid(oid: ObjectId) | Text(text: string)

  predicate IsHexDigit(c: char) {
    '0' <= c <= '9' || 'a' <= c <= 'f' || 'A' <= c <= 'F'
  }

  /** `ObjectId.is_valid` on a string: exactly 24 hexadecimal digits. */
  predicate IsValidId(s: string) {
    |s| == 24 && forall i :: 0 <= i < |s| ==> IsHexDigit(s[i])
  }

  /** The value of one hex digit, either case, as `bytes.fromhex` reads it. */
  function LowerHexDigit(c: char): (d: char)
    requires IsHexDigit(c)
    ensures '0' <= d <= '9' || 'a' <= d <= 'f'
    ensures 'A' <= c <= 'F' ==> d as int == c as int + 32
    ensures !('A' <= c <= 'F') ==> d == c
  {
    if 'A' <= c <= 'F' then (c as int + 32) as char else c
  }

  /** Two characters are equal up to ASCII letter case. */
  predicate SameLetterIgnoringCase(a: char, b: char) {
    || a == b
    || ('A' <= a <= 'Z' && b as int == a as int + 32)
    || ('A' <= b <= 'Z' && a as int == b as int + 32)
  }

  /** Two strings are equal up to ASCII letter case. */
  predicate SameIgnoringCase(s: string, t: string) {
    |s| == |t| && forall i :: 0 <= i < |s| ==> SameLetterIgnoringCase(s[i], t[i])
  }

  /** Conversion of an id argument to an ObjectId, as `ObjectId(x)` and
      edman's `Utils.conv_objectid` do: an ObjectId passes through, a valid
      hex string is parsed (case-insensitively), anything else is refused. */
  function ToObjectId(arg: IdArg): (r: Result<ObjectId>)
    ensures r.Err? <==> arg.Text? && !IsValidId(arg.text)
    ensures r.Err? ==> r.error == InvalidObjectId
    ensures arg.Oid? ==> r == Ok(arg.oid)
    ensures arg.Text? && r.Ok? ==>
      forall i :: 0 <= i < 24 ==>
        if 'A' <= arg.text[i] <= 'F' then r.value.hex[i] as int == arg.text[i] as int + 32
        else r.value.hex[i] == arg.text[i]
  {
    match arg
    case Oid(o) => Ok(o)
    case Text(s) =>
      if IsValidId(s) then Ok(ObjectId(LowerHex(s))) else Err(InvalidObjectId)
  }

  /** The canonical text of a valid id string: every digit in lower case. */
  function LowerHex(s: string): (h: HexText)
    requires IsValidId(s)
    ensures forall i :: 0 <= i < 24 ==> h[i] == LowerHexDigit(s[i])
  {
    seq(24, i requires 0 <= i < 24 => LowerHexDigit(s[i]))
  }

  /** `ObjectId(str(o)) == o`: the text of an id converts back to it. */
  lemma ToObjectIdRoundTrip(o: ObjectId)
    ensures ToObjectId(Text(o.hex)) == Ok(o)
  {
    assert IsValidId(o.hex);
    assert LowerHex(o.hex) == o.hex;
  }

  /** Two valid id strings name the same ObjectId exactly when they are
      equal up to letter case, so `_id` look-ups and the set difference of
      `file_delete` do not see the case of the text they were given. */
  lemma ToObjectIdIgnoresCase(s: string, t: string)
    requires IsValidId(s) && IsValidId(t)
    ensures ToObjectId(Text(s)) == ToObjectId(Text(t)) <==> SameIgnoringCase(s, t)
  {
    if ToObjectId(Text(s)) == ToObjectId(Text(t)) {
      forall i | 0 <= i < 24
        ensures SameLetterIgnoringCase(s[i], t[i])
      {
        assert LowerHex(s)[i] == LowerHex(t)[i];
      }
    }
    if SameIgnoringCase(s, t) {
      forall i | 0 <= i < 24
        ensures LowerHex(s)[i] == LowerHex(t)[i]
      {
        assert SameLetterIgnoringCase(s[i], t[i]);
      }
      assert LowerHex(s) == LowerHex(t);
    }
  }

  /** `tuple(map(lambda x: ObjectId(x), delete_list))`: converts every
      element, and fails if any element fails. */
  function ConvertAll(args: seq<IdArg>): (r: Result<seq<ObjectId>>)
    ensures r.Ok? <==> forall i :: 0 <= i < |args| ==> ToObjectId(args[i]).Ok?
    ensures r.Err? ==> r.error == InvalidObjectId
    ensures r.Ok? ==> |r.value| == |args|
    ensures r.Ok? ==> forall i :: 0 <= i < |args| ==> r.value[i] == ToObjectId(args[i]).value
  {
    if args == [] then Ok([])
    else
      match ToObjectId(args[0])
      case Err(e) => Err(e)
      case Ok(o) =>
        match ConvertAll(args[1..])
        case Err(e) => Err(e)
        case Ok(os) => Ok([o] + os)
  }

  /** A document: its other fields (opaque here) and the optional
      attachment key holding the list of blob ids. */
  datatype Doc = Doc(fields: map<string, string>, attachments: Option<seq<ObjectId>>)

  /** The blob ids a document refers to; an absent key reads as none. */
  function Refs(d: Doc): seq<ObjectId> {
    if d.attachments.Some? then d.attachments.value else []
  }

  /** `file_list_attachment`: the new ids are appended to the attachment
      list, which is created when the key is absent. */
  function AttachList(doc: Doc, ids: seq<ObjectId>): (r: Doc)
    ensures r.fields == doc.fields
    ensures r.attachments.Some? && Refs(r) == Refs(doc) + ids
  {
    match doc.attachments
    case None => doc.(attachments := Some(ids))
    case Some(a) => doc.(attachments := Some(a + ids))
  }

  /** `file_list_replace`: the attachment list becomes `refs`, and the key
      is dropped altogether when `refs` is empty. */
  function ReplaceList(doc: Doc, refs: seq<ObjectId>): (r: Doc)
    ensures r.fields == doc.fields
    ensures r.attachments.None? <==> refs == []
    ensures Refs(r) == refs
  {
    if refs == [] then doc.(attachments := None) else doc.(attachments := Some(refs))
  }

  predicate NoDuplicates<T(==)>(s: seq<T>) {
    forall i, j :: 0 <= i < j < |s| ==> s[i] != s[j]
  }

  /** `list(set(refs) - set(del))`: every id of `refs` not in `del`, each
      once. Python leaves the order open; this keeps first occurrences. */
  function RemoveRefs(refs: seq<ObjectId>, del: seq<ObjectId>): (r: seq<ObjectId>)
    ensures NoDuplicates(r)
    ensures forall x :: x in r <==> x in refs && x !in del
  {
    if refs == [] then []
    else
      var rest := RemoveRefs(refs[..|refs| - 1], del);
      var x := refs[|refs| - 1];
      assert refs == refs[..|refs| - 1] + [x];
      if x in del || x in rest then rest else rest + [x]
  }

  /** A GridFS file: its bytes and the `filename` metadata. */
  datatype Blob = Blob(data: seq<byte>, filename: string)

  /** The blob table after `fs_delete(ids)`: every listed id is gone, absent
      ids are ignored, and every other blob is kept as it was. */
  function Without(blobs: map<ObjectId, Blob>, ids: seq<ObjectId>): (r: map<ObjectId, Blob>)
    ensures forall k :: k in r <==> k in blobs && k !in ids
    ensures forall k :: k in r ==> r[k] == blobs[k]
  {
    map k | k in blobs && k !in ids :: blobs[k]
  }

  /** Deleting the same ids twice leaves the table as deleting them once. */
  lemma WithoutIdempotent(blobs: map<ObjectId, Blob>, ids: seq<ObjectId>)
    ensures Without(Without(blobs, ids), ids) == Without(blobs, ids)
  {
  }

  /** Deleting a freshly inserted id restores the table it was inserted into. */
  lemma WithoutFresh(blobs: map<ObjectId, Blob>, id: ObjectId, b: Blob)
    requires id !in blobs
    ensures Without(blobs[id := b], [id]) == blobs
  {
    assert Without(blobs[id := b], [id]).Keys == blobs.Keys;
  }
}
