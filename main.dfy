/** The view controller of js/main.js: the module-level `currentStudent` and
    `isUploading`, the visibility of the search form and of the student data
    section, the texts on display, the error and success banners, and the
    handlers `searchStudent`, `displayStudentData`, `handlePhotoUpload`,
    `printCard` and `resetForm`. Each server answer is an oracle argument
    of type `Transport`; the requests that leave the page are logged. */
module StudentView {
  import opened JsText
  import opened Config
  import opened SessionStore

  const DefaultAvatar := "assets/default-avatar.png"
  const PrintDataKey := "printData"
  const PrintPage := "cetak.html"
  const PhotoUploadKind := "Foto"

  const FoundMessage := "Data siswa ditemukan!"
  const NotFoundMessage := "Data siswa tidak ditemukan"
  const OnlyImagesMessage := "Hanya file gambar yang diperbolehkan"
  const PhotoUploadedMessage := "Foto berhasil diupload!"
  const UploadFailedPrefix := "Upload gagal: "
  const UpdateFailedPrefix := "Gagal mengupdate data: "
  const UnknownError := "Unknown error"
  const NoStudentMessage := "Data siswa tidak tersedia"
  const IncompleteStudentMessage := "Data siswa tidak lengkap"

  /** The texts of the student data section and the `src` of the photo. */
  datatype Display = Display(nisn: string, nama: string, ttl: string, alamat: string, photo: string)

  /** A request that left the page: a GET with its query, or a POST
      upload with its `action`. */
  datatype Request = ApiCall(query: seq<(string, string)>) | UploadCall(action: string)

  /** The photo `displayStudentData` shows for a `foto` property: the
      default avatar when it is missing or blank after trimming. */
  function PhotoSource(foto: string): (r: string)
    ensures r != ""
    ensures r == foto || r == DefaultAvatar
  {
    if foto != "" && Trim(foto) != "" then foto else DefaultAvatar
  }

  lemma PhotoFallback(foto: string)
    ensures (forall i :: 0 <= i < |foto| ==> IsJsWhitespace(foto[i])) ==> PhotoSource(foto) == DefaultAvatar
    ensures (exists i :: 0 <= i < |foto| && !IsJsWhitespace(foto[i])) ==> PhotoSource(foto) == foto
  {
    TrimEmptyIff(foto);
  }

  /** What `displayStudentData(data)` puts on the page: NISN and name as
      they are, a dash for a missing date of birth or address, and the photo
      when the page has a photo element. The date of birth, the address
      and a shown photo are never blank. */
  function Rendered(previous: Display, data: ApiResult, hasPhotoElement: bool): (r: Display)
    ensures r.nisn == Field(data, "nisn") && r.nama == Field(data, "nama")
    ensures r.ttl != "" && r.alamat != ""
    ensures Field(data, "ttl") != "" ==> r.ttl == Field(data, "ttl")
    ensures Field(data, "ttl") == "" ==> r.ttl == "-"
    ensures Field(data, "alamat") != "" ==> r.alamat == Field(data, "alamat")
    ensures Field(data, "alamat") == "" ==> r.alamat == "-"
    ensures hasPhotoElement ==> r.photo != "" && r.photo == PhotoSource(Field(data, "foto"))
    ensures !hasPhotoElement ==> r.photo == previous.photo
  {
    Display(Field(data, "nisn"), Field(data, "nama"),
            OrElse(Field(data, "ttl"), "-"), OrElse(Field(data, "alamat"), "-"),
            if hasPhotoElement then PhotoSource(Field(data, "foto")) else previous.photo)
  }

  /** A record with only NISN and name shows dashes for the date of birth
      and the address, and the default photo. */
  lemma RenderedExample(previous: Display)
    ensures var data := ApiResult(true, map["nisn" := "1234567890", "nama" := "Budi"]);
      Rendered(previous, data, true) == Display("1234567890", "Budi", "-", "-", DefaultAvatar)
  {
  }

  /** `record[key]` handed on as a request param: undefined when absent. */
  function Param(record: ApiResult, key: string): ParamValue {
    if key in record.fields then Text(record.fields[key]) else Undefined
  }

  /** `String(value)` for what is assigned to the photo's `src`. */
  function ParamText(value: ParamValue): string {
    match value
    case Undefined => "undefined"
    case Null => "null"
    case Text(s) => s
  }

  /** `record.foto = value`: assigning undefined leaves no `foto` to read or
      to serialise; every other property stays as it was. */
  function WithFoto(record: ApiResult, value: ParamValue): (r: ApiResult)
    ensures r.success == record.success
    ensures value.Text? ==> Field(r, "foto") == value.text
    ensures !value.Text? ==> "foto" !in r.fields
    ensures r.fields - {"foto"} == record.fields - {"foto"}
  {
    if value.Text? then record.(fields := record.fields["foto" := value.text])
    else record.(fields := record.fields - {"foto"})
  }

  /** The query of `callAPI('updateSiswa', { nisn, foto })`. */
  function UpdateQuery(student: ApiResult, upload: ApiResult): seq<(string, string)> {
    [("action", "updateSiswa")] + PresentParams([("nisn", Param(student, "nisn")), ("foto", Param(upload, "url"))])
  }

  /** `printCard` needs a truthy `nisn` and `nama`. */
  predicate Complete(student: ApiResult) {
    Field(student, "nisn") != "" && Field(student, "nama") != ""
  }

  /** The record as the JavaScript object `printCard` hands to `Session.set`. */
  function AsJsValue(student: ApiResult): JsValue {
    JObj((map k | k in student.fields :: JStr(student.fields[k]))["success" := JBool(student.success)])
  }

  /** The print page reads back exactly the record `printCard` stored. */
  lemma PrintDataRoundTrip(items: map<string, string>, json: JsonCodec, student: ApiResult)
    requires FaithfulJson(json)
    ensures var stored := items[PrintDataKey := StorageText(AsJsValue(student), json)];
      Retrieve(Lookup(stored, PrintDataKey), json) == AsJsValue(student)
  {
    GetAfterSet(AsJsValue(student), json);
  }

  /** Every file `uploadFile` would send also passes the checks that
      `handlePhotoUpload` runs first, so those never turn away an upload
      the helper accepts; the helper alone turns away other image types. */
  lemma PhotoChecksAgree(file: File)
    ensures UploadRejection(Some(file)).None? ==>
      StartsWith(file.mimeType, "image/") && file.size <= MaxUploadBytes
    ensures (StartsWith(file.mimeType, "image/") && file.size <= MaxUploadBytes &&
             file.mimeType !in AllowedUploadTypes) ==>
      UploadRejection(Some(file)) == Some(FileTypeMessage)
  {
  }

  /** The page's state. Only one record is current at a time, and the
      data section is shown exactly when there is one, with the search
      form hidden exactly then. */
  class App {
    var currentStudent: Option<ApiResult>
    var isUploading: bool
    var searchFormHidden: bool
    var studentDataShown: bool
    var display: Display
    var nisnInput: string
    var errorBanner: Option<string>
    var successBanner: Option<string>
    var requests: seq<Request>
    var alerts: seq<string>
    var openedPages: seq<string>
    const session: Session
    const hasPhotoElement: bool

    ghost predicate Valid()
      reads this
    {
      (currentStudent.Some? <==> studentDataShown) &&
      (searchFormHidden <==> studentDataShown)
    }

    /** The page as loaded: no record, no upload, the search form showing.
        The initial texts of the markup are not part of the model. */
    constructor (session: Session, hasPhotoElement: bool)
      ensures Valid()
      ensures this.session == session && this.hasPhotoElement == hasPhotoElement
      ensures currentStudent.None? && !isUploading && !searchFormHidden && !studentDataShown
      ensures nisnInput == "" && errorBanner.None? && successBanner.None?
      ensures requests == [] && alerts == [] && openedPages == []
    {
      this.session := session;
      this.hasPhotoElement := hasPhotoElement;
      currentStudent := None;
      isUploading := false;
      searchFormHidden := false;
      studentDataShown := false;
      display := Display("", "", "", "", "");
      nisnInput := "";
      errorBanner := None;
      successBanner := None;
      requests := [];
      alerts := [];
      openedPages := [];
    }

    /** The user types `text` into the NISN input, which `searchStudent` reads. */
    method EnterNisn(text: string)
      modifies this
      ensures nisnInput == text
      ensures currentStudent == old(currentStudent) && isUploading == old(isUploading)
      ensures searchFormHidden == old(searchFormHidden) && studentDataShown == old(studentDataShown)
      ensures display == old(display) && errorBanner == old(errorBanner) && successBanner == old(successBanner)
      ensures requests == old(requests) && alerts == old(alerts) && openedPages == old(openedPages)
    {
      nisnInput := text;
    }

    /** `displayStudentData(data)`: the record becomes current, its texts
        are shown and the data section replaces the search form. */
    method DisplayStudentData(data: ApiResult)
      modifies this
      ensures Valid()
      ensures currentStudent == Some(data)
      ensures display == Rendered(old(display), data, hasPhotoElement)
      ensures studentDataShown && searchFormHidden
      ensures isUploading == old(isUploading) && nisnInput == old(nisnInput)
      ensures errorBanner == old(errorBanner) && successBanner == old(successBanner)
      ensures requests == old(requests) && alerts == old(alerts) && openedPages == old(openedPages)
    {
      currentStudent := Some(data);
      var photo := display.photo;
      if hasPhotoElement {
        var foto := Field(data, "foto");
        if foto != "" && Trim(foto) != "" {
          photo := foto;
        } else {
          photo := DefaultAvatar;
        }
      }
      display := Display(Field(data, "nisn"), Field(data, "nama"),
                         OrElse(Field(data, "ttl"), "-"), OrElse(Field(data, "alamat"), "-"), photo);
      studentDataShown := true;
      searchFormHidden := true;
    }

    /** What looking up `nisn` leaves behind when the server answers
        `reply`: the `getSiswa` request is logged; a found record becomes
        current and is shown with the success banner; otherwise the record
        and the page stay as they were and the server's message (or the
        not-found text) is shown. */
    twostate predicate LookupOutcome(nisn: string, reply: Transport)
      reads this
    {
      var result := CallResult(reply);
      requests == old(requests) + [ApiCall([("action", "getSiswa"), ("nisn", nisn)])] &&
      (result.success ==>
         currentStudent == Some(result) && display == Rendered(old(display), result, hasPhotoElement) &&
         studentDataShown && searchFormHidden &&
         successBanner == Some(FoundMessage) && errorBanner.None?) &&
      (!result.success ==>
         currentStudent == old(currentStudent) && display == old(display) &&
         studentDataShown == old(studentDataShown) &&
         errorBanner == Some(OrElse(Field(result, "message"), NotFoundMessage)) && successBanner.None?)
    }

    /** `searchStudent()` on the trimmed input, with `reply` the server's
        answer to `getSiswa`. An invalid NISN is reported without any
        request; a valid one is looked up as `FetchStudent`. */
    method SearchStudent(reply: Transport)
      requires Valid()
      modifies this
      ensures Valid()
      ensures isUploading == old(isUploading) && nisnInput == old(nisnInput)
      ensures alerts == old(alerts) && openedPages == old(openedPages)
      ensures var check := ValidateNISN(Trim(old(nisnInput)));
        !check.valid ==>
          errorBanner == Some(check.message) && successBanner == old(successBanner) &&
          requests == old(requests) && currentStudent == old(currentStudent) &&
          display == old(display) && studentDataShown == old(studentDataShown)
      ensures var nisn := Trim(old(nisnInput));
        ValidateNISN(nisn).valid ==> LookupOutcome(nisn, reply)
    {
      var nisn := Trim(nisnInput);
      var check := ValidateNISN(nisn);
      if !check.valid {
        errorBanner := Some(check.message);
        return;
      }
      FetchStudent(nisn, reply);
    }

    /** The lookup `searchStudent` runs for a valid `nisn`: the banners are
        hidden, `getSiswa` is called, and the answer is displayed or reported. */
    method FetchStudent(nisn: string, reply: Transport)
      requires Valid()
      modifies this
      ensures Valid()
      ensures isUploading == old(isUploading) && nisnInput == old(nisnInput)
      ensures alerts == old(alerts) && openedPages == old(openedPages)
      ensures LookupOutcome(nisn, reply)
    {
      var query, result := CallApi("getSiswa", [("nisn", Text(nisn))], reply);
      assert PresentParams([("nisn", Text(nisn))]) == [("nisn", nisn)];
      assert query == [("action", "getSiswa"), ("nisn", nisn)];
      errorBanner, successBanner, requests := None, None, requests + [ApiCall(query)];
      if result.success {
        DisplayStudentData(result);
        successBanner := Some(FoundMessage);
      } else {
        errorBanner := Some(OrElse(Field(result, "message"), NotFoundMessage));
      }
    }

    /** What a started upload of `file` leaves behind, given the server's
        answers: the upload request when `uploadFile` accepts the file, the
        `updateSiswa` request when the upload succeeded, the record and the
        photo replaced only when both calls succeed and the page has a photo
        element, and the banner that reports the outcome. */
    twostate predicate UploadOutcome(file: File, uploadReply: Transport, updateReply: Transport)
      reads this
    {
      old(currentStudent).Some? &&
      var student := old(currentStudent).value;
      var upload := UploadResult(Some(file), uploadReply);
      var update := CallResult(updateReply);
      var replaced := upload.success && update.success && hasPhotoElement;
      requests == old(requests) +
        (if UploadRejection(Some(file)).None? then [UploadCall("upload" + PhotoUploadKind)] else []) +
        (if upload.success then [ApiCall(UpdateQuery(student, upload))] else []) &&
      (replaced ==> currentStudent == Some(WithFoto(student, Param(upload, "url"))) &&
                    display == old(display).(photo := ParamText(Param(upload, "url")))) &&
      (!replaced ==> currentStudent == old(currentStudent) && display == old(display)) &&
      (upload.success && update.success ==>
         successBanner == Some(PhotoUploadedMessage) && errorBanner == old(errorBanner)) &&
      (upload.success && !update.success ==>
         errorBanner == Some(UpdateFailedPrefix + OrElse(Field(update, "message"), UnknownError)) &&
         successBanner == old(successBanner)) &&
      (!upload.success ==>
         errorBanner == Some(UploadFailedPrefix + OrElse(Field(upload, "message"), UnknownError)) &&
         successBanner == old(successBanner))
    }

    /** `handlePhotoUpload(event)` for the selected `file`, with the
        server's answers to the upload and to the `updateSiswa` call. It
        does nothing while an upload runs, without a current record or
        without a file; a file that is not an image or is over 2 MiB only
        raises an alert. Otherwise the upload runs as `UploadAndUpdate`. */
    method HandlePhotoUpload(file: Option<File>, uploadReply: Transport, updateReply: Transport)
      requires Valid()
      modifies this
      ensures Valid()
      ensures isUploading == old(isUploading)
      ensures nisnInput == old(nisnInput) && openedPages == old(openedPages)
      ensures studentDataShown == old(studentDataShown) && searchFormHidden == old(searchFormHidden)
      ensures old(isUploading) || old(currentStudent).None? || file.None? ==> unchanged(this)
      ensures (!old(isUploading) && old(currentStudent).Some? && file.Some? &&
               (!StartsWith(file.value.mimeType, "image/") || file.value.size > MaxUploadBytes)) ==>
          alerts == old(alerts) + [if !StartsWith(file.value.mimeType, "image/") then OnlyImagesMessage else FileTooLargeMessage] &&
          requests == old(requests) && currentStudent == old(currentStudent) && display == old(display) &&
          errorBanner == old(errorBanner) && successBanner == old(successBanner)
      ensures (!old(isUploading) && old(currentStudent).Some? && file.Some? &&
               StartsWith(file.value.mimeType, "image/") && file.value.size <= MaxUploadBytes) ==>
          alerts == old(alerts) && UploadOutcome(file.value, uploadReply, updateReply)
    {
      if isUploading || currentStudent.None? {
        return;
      }
      if file.None? {
        return;
      }
      if !StartsWith(file.value.mimeType, "image/") {
        alerts := alerts + [OnlyImagesMessage];
        return;
      }
      if file.value.size > MaxUploadBytes {
        alerts := alerts + [FileTooLargeMessage];
        return;
      }
      UploadAndUpdate(file.value, uploadReply, updateReply);
    }

    /** The upload `handlePhotoUpload` starts once its own checks pass: the
        flag is set and cleared whatever happens, `updateSiswa` is sent only
        after the upload succeeds, and the photo is replaced only after both
        calls succeed. */
    method UploadAndUpdate(file: File, uploadReply: Transport, updateReply: Transport)
      requires Valid() && !isUploading && currentStudent.Some?
      modifies this
      ensures Valid()
      ensures !isUploading
      ensures nisnInput == old(nisnInput) && openedPages == old(openedPages)
      ensures studentDataShown == old(studentDataShown) && searchFormHidden == old(searchFormHidden)
      ensures alerts == old(alerts) && UploadOutcome(file, uploadReply, updateReply)
    {
      isUploading := true;
      var sent, student, shown := requests, currentStudent.value, display;
      var error, success := errorBanner, successBanner;
      var request, result := UploadFile(Some(file), PhotoUploadKind, uploadReply);
      if request.Some? {
        sent := sent + [UploadCall(request.value)];
      }
      if result.success {
        var query, updateResult := CallApi("updateSiswa",
          [("nisn", Param(student, "nisn")), ("foto", Param(result, "url"))], updateReply);
        sent := sent + [ApiCall(query)];
        if updateResult.success {
          if hasPhotoElement {
            shown := shown.(photo := ParamText(Param(result, "url")));
            student := WithFoto(student, Param(result, "url"));
          }
          success := Some(PhotoUploadedMessage);
        } else {
          error := Some(UpdateFailedPrefix + OrElse(Field(updateResult, "message"), UnknownError));
        }
      } else {
        error := Some(UploadFailedPrefix + OrElse(Field(result, "message"), UnknownError));
      }
      requests, currentStudent, display := sent, Some(student), shown;
      errorBanner, successBanner := error, success;
      isUploading := false;
    }

    /** `printCard()`: only a current record with a truthy `nisn` and
        `nama` is stored under `printData` (when storage accepts it) and
        the print page opened; otherwise an error is shown and nothing is
        stored. */
    method PrintCard(storageFails: bool)
      requires Valid()
      modifies this, session
      ensures Valid()
      ensures currentStudent == old(currentStudent) && isUploading == old(isUploading)
      ensures studentDataShown == old(studentDataShown) && searchFormHidden == old(searchFormHidden)
      ensures display == old(display) && nisnInput == old(nisnInput) && successBanner == old(successBanner)
      ensures requests == old(requests) && alerts == old(alerts)
      ensures old(currentStudent).None? ==>
        errorBanner == Some(NoStudentMessage) &&
        session.items == old(session.items) && openedPages == old(openedPages)
      ensures old(currentStudent).Some? && !Complete(old(currentStudent).value) ==>
        errorBanner == Some(IncompleteStudentMessage) &&
        session.items == old(session.items) && openedPages == old(openedPages)
      ensures old(currentStudent).Some? && Complete(old(currentStudent).value) ==>
        errorBanner == old(errorBanner) && openedPages == old(openedPages) + [PrintPage] &&
        session.items == if storageFails then old(session.items)
                         else old(session.items)[PrintDataKey := StorageText(AsJsValue(old(currentStudent).value), session.json)]
    {
      if currentStudent.None? {
        errorBanner := Some(NoStudentMessage);
        return;
      }
      var student := currentStudent.value;
      if Field(student, "nisn") == "" || Field(student, "nama") == "" {
        errorBanner := Some(IncompleteStudentMessage);
        return;
      }
      var _ := session.Set(PrintDataKey, AsJsValue(student), storageFails);
      openedPages := openedPages + [PrintPage];
    }

    /** `resetForm()`: the record is dropped, the search form returns with
        an empty input and the banners are hidden. */
    method ResetForm()
      modifies this
      ensures Valid()
      ensures currentStudent.None? && !studentDataShown && !searchFormHidden
      ensures nisnInput == "" && errorBanner.None? && successBanner.None?
      ensures isUploading == old(isUploading) && display == old(display)
      ensures requests == old(requests) && alerts == old(alerts) && openedPages == old(openedPages)
    {
      studentDataShown := false;
      searchFormHidden := false;
      nisnInput := "";
      currentStudent := None;
      errorBanner := None;
      successBanner := None;
    }
  }
}
