/**
  The ResourceEncoder of implant.go: one file's bytes read, gzipped and
  hex-encoded into a `Resource` (implant.go:54-58, 195-226).
*/
module Encoder {
  import opened Wrappers
  import opened Hex
  import opened Fs

  /** `Resource`: the path, the hex of the gzipped bytes, and the uncompressed length. */
  datatype Resource = Resource(filename: string, contents: string, length: nat)

  /**
    gzip at `BestSpeed` into a `bytes.Buffer`; None when `NewWriterLevel` or
    `Write` fails. The buffer after `Close` is the result, whatever `Close`
    reports, since its error is discarded.
  */
  type Compressor = seq<byte> -> Option<seq<byte>>

  /** The errors that abort `findFiles`. */
  datatype Error =
    | ReadError(path: string)   // `ioutil.ReadFile` failed on this path
    | CompressError             // the gzip writer failed

  /** The body of the record loop for one path: read, compress, encode. */
  function EncodeFile(fs: FileSystem, gzip: Compressor, path: string): (r: Result<Resource, Error>)
    ensures ReadFile(fs, path).None? ==> r == Err(ReadError(path))
    ensures ReadFile(fs, path).Some? && gzip(ReadFile(fs, path).value).None? ==> r == Err(CompressError)
    ensures r.Ok? <==> ReadFile(fs, path).Some? && gzip(ReadFile(fs, path).value).Some?
    ensures r.Ok? ==>
      var data := ReadFile(fs, path).value;
      var packed := gzip(data).value;
      && r.value.filename == path
      && r.value.length == |data|
      && |r.value.contents| == 2 * |packed|
      && (forall i :: 0 <= i < |r.value.contents| ==> IsLowerHexDigit(r.value.contents[i]))
      && Decode(r.value.contents) == Ok(packed)
  {
    match ReadFile(fs, path)
    case None => Err(ReadError(path))
    case Some(data) =>
      match gzip(data)
      case None => Err(CompressError)
      case Some(packed) =>
        DecodeEncode(packed);
        Ok(Resource(path, Encode(packed), |data|))
  }

  /**
    The record a successful `EncodeFile` returns decodes back to the file:
    hex-decoding then gunzipping its contents gives exactly the bytes read,
    and their count is its length, provided `gunzip` undoes `gzip`.
  */
  lemma ResourceRoundTrip(fs: FileSystem, gzip: Compressor, gunzip: seq<byte> -> seq<byte>, path: string)
    requires forall b :: gzip(b).Some? ==> gunzip(gzip(b).value) == b
    requires EncodeFile(fs, gzip, path).Ok?
    ensures var res := EncodeFile(fs, gzip, path).value;
      && Decode(res.contents).Ok?
      && gunzip(Decode(res.contents).value) == ReadFile(fs, path).value
      && |gunzip(Decode(res.contents).value)| == res.length
  {
  }

  /**
    The record loop over `paths` (implant.go:190-228): every record in order,
    or the error of the first path that fails, with no partial list.
  */
  function EncodeAll(fs: FileSystem, gzip: Compressor, paths: seq<string>): (r: Result<seq<Resource>, Error>)
    ensures r.Ok? <==> forall i :: 0 <= i < |paths| ==> EncodeFile(fs, gzip, paths[i]).Ok?
    ensures r.Ok? ==> |r.value| == |paths|
    ensures r.Ok? ==> forall i :: 0 <= i < |paths| ==> r.value[i] == EncodeFile(fs, gzip, paths[i]).value
  {
    if paths == [] then Ok([])
    else
      var init := paths[..|paths| - 1];
      assert forall i :: 0 <= i < |init| ==> init[i] == paths[i];
      match EncodeAll(fs, gzip, init)
      case Err(e) => Err(e)
      case Ok(records) =>
        match EncodeFile(fs, gzip, paths[|paths| - 1])
        case Err(e) => Err(e)
        case Ok(res) => Ok(records + [res])
  }

  /** Once a prefix fails, the whole loop fails with that prefix's error. */
  lemma {:induction false} EncodeAllErrPrefix(fs: FileSystem, gzip: Compressor, paths: seq<string>, k: nat)
    requires k <= |paths| && EncodeAll(fs, gzip, paths[..k]).Err?
    ensures EncodeAll(fs, gzip, paths) == EncodeAll(fs, gzip, paths[..k])
  {
    if k < |paths| {
      var init := paths[..|paths| - 1];
      assert init[..k] == paths[..k];
      EncodeAllErrPrefix(fs, gzip, init, k);
    } else {
      assert paths[..k] == paths;
    }
  }

  /** The error reported is that of the first path that fails. */
  lemma EncodeAllFirstError(fs: FileSystem, gzip: Compressor, paths: seq<string>, k: nat)
    requires k < |paths| && EncodeFile(fs, gzip, paths[k]).Err?
    requires forall i :: 0 <= i < k ==> EncodeFile(fs, gzip, paths[i]).Ok?
    ensures EncodeAll(fs, gzip, paths) == Err(EncodeFile(fs, gzip, paths[k]).error)
  {
  }
}
