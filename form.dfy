/**
 * The shoutout form of src/components/shoutout-form.tsx: its validation
 * schema and default values, the gates on attached and scanned images, the
 * rule that appends scanned text to the message, the guard in front of the
 * stylize service, and what a valid submission forwards to the feed store.
 *
 * The scanner, the stylize service and `FileReader` are outside the model:
 * their results arrive as parameters (`recognized`, `reply`, `dataUrl`).
 */
module ShoutoutForm {
  import opened Types
  import opened OcrText
  import FeedStore

  /** The four validated fields. */
  datatype FormValues = FormValues(sender: string, recipient: string, message: string, frame: string)

  /** One validation message of the schema, by field. */
  datatype Issue = SenderRequired | RecipientRequired | MessageEmpty | MessageTooLong | FrameRequired

  /** The notices (toasts) the handlers raise. */
  datatype Notice =
    | ImageTooLarge
    | EnterMessageFirst | MessageStylized | AiError
    | UnsupportedFormat | ScanImageTooLarge | TextScanned(count: nat) | NoTextFound | ScanError

  /** A chosen file: its size in bytes, its MIME type, and the data URL `FileReader` makes of it. */
  datatype UploadFile = UploadFile(size: nat, mimeType: string, dataUrl: string)

  const MaxMessageLength: nat := 500
  const MaxImageBytes: nat := 1 * 1024 * 1024
  const MaxOcrBytes: nat := 5 * 1024 * 1024
  const OcrTypes: seq<string> := ["image/jpeg", "image/png", "image/jpg", "image/bmp", "image/tiff", "image/webp"]
  /** Fewer cleaned characters than this count as "no text found". */
  const MinScannedLength: nat := 3

  /** `defaultValues`. */
  const DefaultValues: FormValues := FormValues("Anonymous", "", "", "heart")

  /** `formSchema`: the issues of `v`, in field order; a submission is accepted when there are none. */
  function Validate(v: FormValues): (issues: seq<Issue>)
    ensures issues == [] <==>
      v.sender != "" && v.recipient != "" && 1 <= |v.message| <= MaxMessageLength && v.frame != ""
    ensures SenderRequired in issues <==> v.sender == ""
    ensures RecipientRequired in issues <==> v.recipient == ""
    ensures MessageEmpty in issues <==> v.message == ""
    ensures MessageTooLong in issues <==> |v.message| > MaxMessageLength
    ensures FrameRequired in issues <==> v.frame == ""
  {
    var sender := if v.sender == "" then [SenderRequired] else [];
    var recipient := if v.recipient == "" then [RecipientRequired] else [];
    var empty := if v.message == "" then [MessageEmpty] else [];
    var long := if |v.message| > MaxMessageLength then [MessageTooLong] else [];
    var frame := if v.frame == "" then [FrameRequired] else [];
    sender + recipient + empty + long + frame
  }

  /** The untouched form cannot be sent: it has no recipient and no message. */
  lemma DefaultsRejected()
    ensures Validate(DefaultValues) == [RecipientRequired, MessageEmpty]
  {
  }

  /** The file types the scanner accepts. */
  predicate ScanTypeAccepted(mimeType: string) {
    mimeType in OcrTypes
  }

  /** The scan gate: the type is checked first, then the size. `None` lets the scan run. */
  function OcrGate(file: UploadFile): (rejection: Option<Notice>)
    ensures rejection.None? <==> ScanTypeAccepted(file.mimeType) && file.size <= MaxOcrBytes
    ensures !ScanTypeAccepted(file.mimeType) ==> rejection == Some(UnsupportedFormat)
    ensures rejection == Some(ScanImageTooLarge) <==> ScanTypeAccepted(file.mimeType) && file.size > MaxOcrBytes
  {
    if !ScanTypeAccepted(file.mimeType) then Some(UnsupportedFormat)
    else if file.size > MaxOcrBytes then Some(ScanImageTooLarge)
    else None
  }

  /**
   * Scanned text added to the message: the scan alone into an empty message;
   * otherwise after the message, on a new line (no extra line break when the
   * message already ends with one).
   */
  function AppendScanned(current: string, cleaned: string): (r: string)
    ensures current == "" ==> r == cleaned
    ensures current != "" ==> |r| == |current| + |cleaned| + (if current[|current| - 1] == '\n' then 0 else 1)
    ensures current != "" ==> current <= r && r[|r| - |cleaned|..] == cleaned
    ensures current != "" ==> r[|current| - 1] == '\n' || r[|current|] == '\n'
  {
    var separator := if current != "" && current[|current| - 1] != '\n' then "\n" else "";
    if current != "" then current + separator + cleaned else cleaned
  }

  /** Appending adds the scan's visible characters after the message's, and nothing else. */
  lemma AppendScannedVisible(current: string, cleaned: string)
    ensures Visible(AppendScanned(current, cleaned)) == Visible(current) + Visible(cleaned)
  {
    if current != "" {
      var separator := if current[|current| - 1] != '\n' then "\n" else "";
      assert Visible(separator) == [];
      VisibleAppend(current, separator);
      VisibleAppend(current + separator, cleaned);
    }
  }

  /**
   * The message after a scan whose cleaned text is `cleaned`: `None` (message
   * unchanged) unless it has at least three characters.
   */
  function ScannedMessage(current: string, cleaned: string): (r: Option<string>)
    ensures r.Some? <==> |cleaned| >= MinScannedLength
  {
    if |cleaned| >= MinScannedLength then Some(AppendScanned(current, cleaned)) else None
  }

  /**
   * A scan of `text` that changes the message adds exactly the scan's visible
   * characters after the message's (the layout is that of `AppendScanned`).
   */
  lemma ScannedMessageSpec(current: string, text: string)
    requires ScannedMessage(current, CleanScannedText(text)).Some?
    ensures Visible(ScannedMessage(current, CleanScannedText(text)).value) == Visible(current) + Visible(text)
  {
    AppendScannedVisible(current, CleanScannedText(text));
  }

  /** The form's state: its field values and the attached image (preview and payload). */
  class Form {
    var values: FormValues
    var imagePreview: Option<string>
    var imageBase64: Option<string>

    constructor ()
      ensures values == DefaultValues && imagePreview == None && imageBase64 == None
    {
      values := DefaultValues;
      imagePreview := None;
      imageBase64 := None;
    }

    /** The user types into the inputs and picks a frame. */
    method EnterValues(v: FormValues)
      modifies this
      ensures values == v
      ensures imagePreview == old(imagePreview) && imageBase64 == old(imageBase64)
    {
      values := v;
    }

    /**
     * `handleImageChange`: an image over 1 MiB is refused and the earlier
     * attachment stays; otherwise the file's data URL becomes the attachment.
     */
    method HandleImageChange(file: Option<UploadFile>) returns (notice: Option<Notice>)
      modifies this
      ensures file.None? ==> notice == None && unchanged(this)
      ensures file.Some? && file.value.size > MaxImageBytes ==> notice == Some(ImageTooLarge) && unchanged(this)
      ensures file.Some? && file.value.size <= MaxImageBytes ==>
        && notice == None && values == old(values)
        && imagePreview == Some(file.value.dataUrl) && imageBase64 == Some(file.value.dataUrl)
    {
      notice := None;
      if file.Some? {
        if file.value.size > MaxImageBytes {
          notice := Some(ImageTooLarge);
          return;
        }
        imagePreview := Some(file.value.dataUrl);
        imageBase64 := Some(file.value.dataUrl);
      }
    }

    /** `clearImage`: drop the attachment. */
    method ClearImage()
      modifies this
      ensures imagePreview == None && imageBase64 == None && values == old(values)
    {
      imagePreview := None;
      imageBase64 := None;
    }

    /**
     * `handleStylize`, given the service's reply (`None` when the call fails).
     * An empty message is refused before any call; a failed call or an empty
     * reply leaves the message as it was.
     */
    method HandleStylize(reply: Option<string>) returns (notice: Notice)
      modifies this
      ensures old(values.message) == "" ==> notice == EnterMessageFirst && unchanged(this)
      ensures old(values.message) != "" && reply.Some? && reply.value != "" ==>
        notice == MessageStylized && values == old(values).(message := reply.value)
        && imagePreview == old(imagePreview) && imageBase64 == old(imageBase64)
      ensures old(values.message) != "" && (reply.None? || reply.value == "") ==>
        notice == AiError && unchanged(this)
    {
      if values.message == "" {
        return EnterMessageFirst;
      }
      if reply.Some? && reply.value != "" {
        values := values.(message := reply.value);
        notice := MessageStylized;
      } else {
        notice := AiError;
      }
    }

    /**
     * `handleOcrImageChange`, given what the scanner recognized (`None` when
     * scanning fails). Rejected files and failed or too-short scans leave the
     * form as it was; a good scan is appended to the message.
     */
    method HandleOcrImageChange(file: Option<UploadFile>, recognized: Option<string>) returns (notice: Option<Notice>)
      modifies this
      ensures file.None? ==> notice == None && unchanged(this)
      ensures file.Some? && OcrGate(file.value).Some? ==> notice == OcrGate(file.value) && unchanged(this)
      ensures file.Some? && OcrGate(file.value).None? && recognized.None? ==> notice == Some(ScanError) && unchanged(this)
      ensures file.Some? && OcrGate(file.value).None? && recognized.Some? ==>
        var cleaned := CleanScannedText(recognized.value);
        && (ScannedMessage(old(values.message), cleaned).Some? ==>
              && notice == Some(TextScanned(|cleaned|))
              && values == old(values).(message := ScannedMessage(old(values.message), cleaned).value)
              && imagePreview == old(imagePreview) && imageBase64 == old(imageBase64))
        && (ScannedMessage(old(values.message), cleaned).None? ==> notice == Some(NoTextFound) && unchanged(this))
    {
      if file.None? {
        return None;
      }
      notice := OcrGate(file.value);
      if notice.Some? {
        return;
      }
      if recognized.None? {
        return Some(ScanError);
      }
      var scanned := ApplyScan(CleanScannedText(recognized.value));
      notice := Some(scanned);
    }

    /** A finished scan with cleaned text `cleaned`: append it to the message when long enough, or report that none was found. */
    method ApplyScan(cleaned: string) returns (notice: Notice)
      modifies this
      ensures ScannedMessage(old(values.message), cleaned).Some? ==>
        && notice == TextScanned(|cleaned|)
        && values == old(values).(message := ScannedMessage(old(values.message), cleaned).value)
        && imagePreview == old(imagePreview) && imageBase64 == old(imageBase64)
      ensures ScannedMessage(old(values.message), cleaned).None? ==> notice == NoTextFound && unchanged(this)
    {
      var next := ScannedMessage(values.message, cleaned);
      if next.Some? {
        values := values.(message := next.value);
        notice := TextScanned(|cleaned|);
      } else {
        notice := NoTextFound;
      }
    }

    /**
     * `form.handleSubmit(onSubmit)`: an invalid form reports its issues and
     * forwards nothing; a valid one forwards its four fields verbatim with the
     * attachment, then resets the form and clears the attachment.
     */
    method Submit() returns (submitted: Option<ShoutoutData>, issues: seq<Issue>)
      modifies this
      ensures issues == Validate(old(values))
      ensures issues != [] ==> submitted == None && unchanged(this)
      ensures issues == [] ==>
        && submitted == Some(ShoutoutData(old(values).sender, old(values).recipient, old(values).message,
                                          old(imageBase64), old(values).frame))
        && values == DefaultValues && imagePreview == None && imageBase64 == None
    {
      issues := Validate(values);
      if issues != [] {
        return None, issues;
      }
      submitted := Some(ShoutoutData(values.sender, values.recipient, values.message, imageBase64, values.frame));
      values := DefaultValues;
      ClearImage();
    }
  }

  /**
   * A valid form sent to the feed store: the new head of the feed carries the
   * typed fields and the attachment unchanged.
   */
  method PostFromForm(v: FormValues, attachment: UploadFile, store: FeedStore.ShoutoutStore, id: string, now: int)
    returns (posted: bool)
    requires Validate(v) == [] && attachment.size <= MaxImageBytes
    modifies store, store.storage
    ensures posted
    ensures |store.shoutouts| == |old(store.shoutouts)| + 1 && store.shoutouts[1..] == old(store.shoutouts)
    ensures var head := store.shoutouts[0];
      && head.sender == v.sender && head.recipient == v.recipient && head.message == v.message
      && head.frame == v.frame && head.image == Some(attachment.dataUrl)
      && head.id == id && head.createdAt == now
  {
    var form := new Form();
    form.EnterValues(v);
    var _ := form.HandleImageChange(Some(attachment));
    var submitted, _ := form.Submit();
    posted := submitted.Some?;
    if submitted.Some? {
      store.Add(submitted.value, id, now);
    }
  }
}
