/** The helpers of js/config.js that carry behaviour: the NISN format check,
    the query built by `callAPI` with its single failure result, and the
    local checks of `uploadFile` with its failure results. The network is an
    oracle: a `Transport` value says how the request ended. */
module Config {
  import opened JsText

  // ---------------------------------------------------------------------
  // validateNISN

  /** The `{ valid, message }` object `validateNISN` returns. */
  datatype Validation = Validation(valid: bool, message: string)

  const NisnLengthMessage := "NISN harus 10 digit"
  const NisnDigitsMessage := "NISN harus berupa angka"

  /** The regular expression `/^\d+$/`: one or more ASCII digits and nothing else. */
  predicate MatchesDigits(s: string)
    decreases |s|
  {
    |s| > 0 && IsDigit(s[0]) && (|s| == 1 || MatchesDigits(s[1..]))
  }

  lemma {:induction false} MatchesDigitsIff(s: string)
    ensures MatchesDigits(s) <==> |s| > 0 && forall i :: 0 <= i < |s| ==> IsDigit(s[i])
    decreases |s|
  {
    if |s| > 1 {
      MatchesDigitsIff(s[1..]);
      assert forall i :: 1 <= i < |s| ==> s[i] == s[1..][i - 1];
    }
  }

  /** `validateNISN`: the length check runs first, so a short numeric input
      fails on its length; a ten-character input fails only on a non-digit. */
  function ValidateNISN(nisn: string): (r: Validation)
    ensures r.valid <==> |nisn| == 10 && forall i :: 0 <= i < |nisn| ==> IsDigit(nisn[i])
    ensures r.valid ==> r.message == ""
    ensures |nisn| != 10 ==> r.message == NisnLengthMessage
    ensures |nisn| == 10 && !r.valid ==> r.message == NisnDigitsMessage
  {
    MatchesDigitsIff(nisn);
    if nisn == "" || |nisn| != 10 then Validation(false, NisnLengthMessage)
    else if !MatchesDigits(nisn) then Validation(false, NisnDigitsMessage)
    else Validation(true, "")
  }

  /** Three sample inputs: a valid NISN, a short numeric one, and one with letters. */
  lemma ValidateNISNExamples()
    ensures ValidateNISN("1234567890") == Validation(true, "")
    ensures ValidateNISN("12345") == Validation(false, NisnLengthMessage)
    ensures ValidateNISN("12345abcde") == Validation(false, NisnDigitsMessage)
  {
    assert !IsDigit("12345abcde"[5]);
  }

  // ---------------------------------------------------------------------
  // Results and the network

  /** The parsed JSON object an API call yields: `success` read for its
      truthiness and the other properties as text; a property that is
      absent reads as the empty string, which JavaScript treats alike in
      every test the front end makes (`!x`, `x || fallback`). */
  datatype ApiResult = ApiResult(success: bool, fields: map<string, string>)

  function Field(r: ApiResult, key: string): string {
    if key in r.fields then r.fields[key] else ""
  }

  /** `{ success: false, message }`. */
  function Failure(message: string): ApiResult {
    ApiResult(false, map["message" := message])
  }

  /** `text || fallback` for a string. */
  function OrElse(text: string, fallback: string): string {
    if text == "" then fallback else text
  }

  /** How `response.json()` ended. */
  datatype Body = Parsed(result: ApiResult) | Malformed(error: string)

  /** How a request ended: `fetch` (or building the URL) threw, or a
      response came back with its `ok` flag, status and body. */
  datatype Transport = Thrown(error: string) | Reply(ok: bool, status: nat, body: Body)

  /** The only way a call hands the server's own object back. */
  predicate Delivered(t: Transport) {
    t.Reply? && t.ok && t.body.Parsed?
  }

  // ---------------------------------------------------------------------
  // callAPI

  const ConnectionFailedMessage := "Koneksi ke server gagal. Periksa koneksi internet Anda."

  /** A value in the `params` object of `callAPI`. */
  datatype ParamValue = Undefined | Null | Text(text: string)

  /** The params that reach the query string, in the order of
      `Object.keys(params)`: those whose value is neither undefined nor null.
      Every pair kept comes from a param holding that text. */
  function PresentParams(params: seq<(string, ParamValue)>): (r: seq<(string, string)>)
    ensures |r| <= |params|
    ensures forall i :: 0 <= i < |r| ==> (r[i].0, Text(r[i].1)) in params
  {
    if params == [] then []
    else
      var last := params[|params| - 1];
      PresentParams(params[..|params| - 1]) + (if last.1.Text? then [(last.0, last.1.text)] else [])
  }

  /** A pair is in the query exactly when the params hold that key with that text. */
  lemma {:induction false} PresentParamsMembers(params: seq<(string, ParamValue)>, key: string, value: string)
    ensures (key, value) in PresentParams(params) <==> (key, Text(value)) in params
    decreases |params|
  {
    if params != [] {
      var init := params[..|params| - 1];
      PresentParamsMembers(init, key, value);
      assert params == init + [params[|params| - 1]];
    }
  }

  /** With no null or undefined value every param is kept, in its order. */
  lemma {:induction false} PresentParamsKeepsAll(params: seq<(string, ParamValue)>)
    requires forall i :: 0 <= i < |params| ==> params[i].1.Text?
    ensures |PresentParams(params)| == |params|
    ensures forall i :: 0 <= i < |params| ==> PresentParams(params)[i] == (params[i].0, params[i].1.text)
    decreases |params|
  {
    if params != [] {
      PresentParamsKeepsAll(params[..|params| - 1]);
    }
  }

  /** Filtering keeps the order of the params: the pairs of a prefix come
      before those of what follows, whatever is null or undefined in either. */
  lemma {:induction false} PresentParamsAppend(a: seq<(string, ParamValue)>, b: seq<(string, ParamValue)>)
    ensures PresentParams(a + b) == PresentParams(a) + PresentParams(b)
    decreases |b|
  {
    if b != [] {
      var init := b[..|b| - 1];
      assert (a + b)[..|a + b| - 1] == a + init;
      PresentParamsAppend(a, init);
    } else {
      assert a + b == a;
    }
  }

  /** What `callAPI` returns for an answer `t`: the server's object when
      it arrives, otherwise the one fixed failure. */
  function CallResult(t: Transport): ApiResult {
    if Delivered(t) then t.body.result else Failure(ConnectionFailedMessage)
  }

  /** `callAPI(action, params)`: the query holds `action` first and then
      the present params; every failure (a throw, a status that is not ok,
      a body that is not JSON) becomes one fixed result and nothing is raised. */
  method CallApi(action: string, params: seq<(string, ParamValue)>, transport: Transport)
    returns (query: seq<(string, string)>, r: ApiResult)
    ensures query == [("action", action)] + PresentParams(params)
    ensures Delivered(transport) ==> r == transport.body.result
    ensures !Delivered(transport) ==> r == Failure(ConnectionFailedMessage)
    ensures r == CallResult(transport)
  {
    query := [("action", action)];
    var i := 0;
    while i < |params|
      invariant 0 <= i <= |params|
      invariant query == [("action", action)] + PresentParams(params[..i])
    {
      var (key, value) := params[i];
      if value != Undefined && value != Null {
        query := query + [(key, value.text)];
      }
      assert params[..i + 1][..i] == params[..i];
      i := i + 1;
    }
    assert params[..|params|] == params;
    if transport.Thrown? || !transport.ok || transport.body.Malformed? {
      r := Failure(ConnectionFailedMessage);
    } else {
      r := transport.body.result;
    }
  }

  // ---------------------------------------------------------------------
  // uploadFile

  /** The `File` picked in the browser: its size in bytes and its MIME type. */
  datatype File = File(size: nat, mimeType: string)

  const MaxUploadBytes: nat := 2 * 1024 * 1024
  const AllowedUploadTypes: seq<string> := ["image/jpeg", "image/jpg", "image/png"]

  const NoFileMessage := "File tidak dipilih"
  const FileTooLargeMessage := "Ukuran file maksimal 2MB"
  const FileTypeMessage := "Format file harus JPG atau PNG"
  const UploadFailedFallback := "Upload file gagal"

  /** The first local check of `uploadFile` that `file` fails, in the order
      the checks run: presence, then size, then type. */
  function UploadRejection(file: Option<File>): (r: Option<string>)
    ensures file.None? ==> r == Some(NoFileMessage)
    ensures file.Some? && file.value.size > MaxUploadBytes ==> r == Some(FileTooLargeMessage)
    ensures file.Some? && file.value.size <= MaxUploadBytes && file.value.mimeType !in AllowedUploadTypes ==>
      r == Some(FileTypeMessage)
    ensures r.None? <==>
      file.Some? && file.value.size <= MaxUploadBytes && file.value.mimeType in AllowedUploadTypes
  {
    if file.None? then Some(NoFileMessage)
    else if file.value.size > MaxUploadBytes then Some(FileTooLargeMessage)
    else if file.value.mimeType !in AllowedUploadTypes then Some(FileTypeMessage)
    else None
  }

  /** What `uploadFile` makes of the answer to its POST: the server's object
      when it arrives, otherwise a failure whose message is never empty. */
  function UploadReplyResult(t: Transport): (r: ApiResult)
    ensures Delivered(t) ==> r == t.body.result
    ensures !Delivered(t) ==> !r.success && Field(r, "message") != ""
  {
    match t
    case Thrown(e) => Failure(OrElse(e, UploadFailedFallback))
    case Reply(ok, status, body) =>
      if !ok then Failure("Upload failed: " + NatToString(status))
      else
        match body
        case Malformed(e) => Failure(OrElse(e, UploadFailedFallback))
        case Parsed(result) => result
  }

  /** The result of `uploadFile(file, kind)` when the server answers with
      `t`: a rejected file fails with its rejection message, and only a
      delivered answer can report success. */
  function UploadResult(file: Option<File>, t: Transport): (r: ApiResult)
    ensures UploadRejection(file).Some? ==> !r.success && Field(r, "message") == UploadRejection(file).value
    ensures r.success ==> UploadRejection(file).None? && Delivered(t) && r == t.body.result
    ensures UploadRejection(file).None? && Delivered(t) ==> r == t.body.result
    ensures !Delivered(t) ==> !r.success && Field(r, "message") != ""
  {
    match UploadRejection(file)
    case Some(message) => Failure(message)
    case None => UploadReplyResult(t)
  }

  /** `uploadFile(file, kind)`: the request to `action=upload<kind>` is sent
      only when every local check passes; a rejected file never reaches the
      network. */
  method UploadFile(file: Option<File>, kind: string, transport: Transport)
    returns (request: Option<string>, r: ApiResult)
    ensures request.Some? <==> UploadRejection(file).None?
    ensures request.Some? ==> request.value == "upload" + kind
    ensures r == UploadResult(file, transport)
  {
    if file.None? {
      return None, Failure(NoFileMessage);
    }
    if file.value.size > MaxUploadBytes {
      return None, Failure(FileTooLargeMessage);
    }
    if file.value.mimeType !in AllowedUploadTypes {
      return None, Failure(FileTypeMessage);
    }
    request := Some("upload" + kind);
    match transport {
      case Thrown(e) =>
        r := Failure(OrElse(e, UploadFailedFallback));
      case Reply(ok, status, body) =>
        if !ok {
          r := Failure("Upload failed: " + NatToString(status));
        } else if body.Malformed? {
          r := Failure(OrElse(body.error, UploadFailedFallback));
        } else {
          r := body.result;
        }
    }
  }
}
