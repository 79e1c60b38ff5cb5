/**
 * The image-edit call (services/geminiService.ts `editImageWithGemini`): the
 * uploaded image loses one leading `data:` URL prefix (RFC 2397, section 2)
 * before it is sent, and the first part of the reply that carries image data
 * becomes a PNG data URL.
 */
module ImageEdit {
  import opened Types
  import opened Text

  const ImageKeyMessage := KeyHint + " is required for image editing. Please configure it in Settings."
  const NoImageMessage := "No image data found in response"
  const ImagePrefix := "data:image/"
  const Base64Tag := ";base64,"
  const PngDataUrl := "data:image/png;base64,"

  /** The media subtypes whose prefix is stripped, in the order the pattern tries them. */
  const Formats: seq<string> := ["png", "jpeg", "jpg", "webp"]

  /** The data URL prefix of a base64 image of subtype `format`. */
  function DataUrl(format: string): (r: string)
    ensures |r| == |ImagePrefix| + |format| + |Base64Tag|
  {
    ImagePrefix + format + Base64Tag
  }

  /** `s` starts with the prefix of one of `formats`. */
  predicate HasPrefix(s: string, formats: seq<string>) {
    exists k :: 0 <= k < |formats| && IsAt(s, DataUrl(formats[k]), 0)
  }

  /** Drop the prefix of the first of `formats` that `s` starts with. */
  function StripWith(s: string, formats: seq<string>): string {
    if formats == [] then s
    else if IsAt(s, DataUrl(formats[0]), 0) then s[|DataUrl(formats[0])|..]
    else StripWith(s, formats[1..])
  }

  /** `replace(/^data:image\/(png|jpeg|jpg|webp);base64,/, '')`. */
  function StripDataUrl(s: string): string {
    StripWith(s, Formats)
  }

  /** The text is changed exactly when it starts with one of the prefixes, and then it gets shorter. */
  lemma {:induction false} StripWithChanges(s: string, formats: seq<string>)
    ensures StripWith(s, formats) == s <==> !HasPrefix(s, formats)
    ensures |StripWith(s, formats)| <= |s|
  {
    if formats != [] {
      StripWithChanges(s, formats[1..]);
      if HasPrefix(s, formats[1..]) {
        var k :| 0 <= k < |formats[1..]| && IsAt(s, DataUrl(formats[1..][k]), 0);
        assert IsAt(s, DataUrl(formats[k + 1]), 0);
      }
      if HasPrefix(s, formats) && !IsAt(s, DataUrl(formats[0]), 0) {
        var k :| 0 <= k < |formats| && IsAt(s, DataUrl(formats[k]), 0);
        assert formats[k] == formats[1..][k - 1];
      }
    }
  }

  /** A text without a recognised prefix is sent as it is. */
  lemma StripUnchanged(s: string)
    ensures StripDataUrl(s) == s <==> !HasPrefix(s, Formats)
  {
    StripWithChanges(s, Formats);
  }

  /** The prefixes of two different subtypes differ at the subtype. */
  lemma OtherPrefix(data: string, k: int, j: int)
    requires 0 <= j < k < |Formats|
    ensures !IsAt(DataUrl(Formats[k]) + data, DataUrl(Formats[j]), 0)
  {
    var s := DataUrl(Formats[k]) + data;
    var d := if j == 1 && k == 2 then 2 else 0;
    assert s[|ImagePrefix| + d] == Formats[k][d];
    MismatchNotAt(s, DataUrl(Formats[j]), 0, |ImagePrefix| + d);
  }

  /** Prefixing image data with a recognised data URL and stripping it gives the data back, even when the data starts with a prefix too. */
  lemma StripRoundTrip(k: int, data: string)
    requires 0 <= k < |Formats|
    ensures StripDataUrl(DataUrl(Formats[k]) + data) == data
  {
    var s := DataUrl(Formats[k]) + data;
    IsAtMiddle("", DataUrl(Formats[k]), data);
    assert "" + DataUrl(Formats[k]) == DataUrl(Formats[k]);
    if k >= 1 {
      OtherPrefix(data, k, 0);
      assert StripWith(s, Formats) == StripWith(s, Formats[1..]);
    }
    if k >= 2 {
      OtherPrefix(data, k, 1);
      assert StripWith(s, Formats[1..]) == StripWith(s, Formats[2..]);
    }
    if k >= 3 {
      OtherPrefix(data, k, 2);
      assert StripWith(s, Formats[2..]) == StripWith(s, Formats[3..]);
    }
    assert Formats[k..][0] == Formats[k];
    assert s[|DataUrl(Formats[k])|..] == data;
  }

  // ---------------------------------------------------------------------------
  // The reply

  /** One part of the reply's first candidate: its inline data, if any. */
  datatype Part = Part(inlineData: Option<string>)

  datatype Content = Content(parts: Option<seq<Part>>)

  datatype Candidate = Candidate(content: Option<Content>)

  /** What `generateContent` gives back: a response, or the error it throws, which is rethrown as it is. */
  datatype Reply = Reply(candidates: Option<seq<Candidate>>) | RequestFailed(error: string)

  /** How the call ends: an image as a data URL, an error with a message, or a runtime type error. */
  datatype EditOutcome = Edited(dataUrl: string) | Failed(message: string) | Crashed

  /** Part `i` carries image data. */
  predicate HasData(parts: seq<Part>, i: int)
    requires 0 <= i < |parts|
  {
    parts[i].inlineData.Some? && parts[i].inlineData.value != ""
  }

  /** The data of the first part that carries any. */
  function FirstImage(parts: seq<Part>): (r: Option<string>)
    ensures r.Some? ==> r.value != ""
  {
    if parts == [] then None
    else if HasData(parts, 0) then parts[0].inlineData
    else FirstImage(parts[1..])
  }

  /** The first part with data is the one chosen. */
  lemma {:induction false} FirstImageFinds(parts: seq<Part>, i: int)
    requires 0 <= i < |parts| && HasData(parts, i)
    requires forall j :: 0 <= j < i ==> !HasData(parts, j)
    ensures FirstImage(parts) == parts[i].inlineData
  {
    if i > 0 {
      assert !HasData(parts, 0);
      forall j | 0 <= j < i - 1
        ensures !HasData(parts[1..], j)
      {
        assert !HasData(parts, j + 1);
      }
      FirstImageFinds(parts[1..], i - 1);
    }
  }

  /** No image is found exactly when no part carries data. */
  lemma {:induction false} FirstImageNone(parts: seq<Part>)
    ensures FirstImage(parts).None? <==> forall i :: 0 <= i < |parts| ==> !HasData(parts, i)
  {
    if parts != [] {
      FirstImageNone(parts[1..]);
      if FirstImage(parts).None? {
        forall i | 1 <= i < |parts|
          ensures !HasData(parts, i)
        {
          assert !HasData(parts[1..], i - 1);
        }
      } else if !HasData(parts, 0) {
        var i :| 0 <= i < |parts[1..]| && HasData(parts[1..], i);
        assert HasData(parts, i + 1);
      }
    }
  }

  /** The result of a reply, once a key was given. */
  function ReplyOutcome(reply: Reply): (r: EditOutcome)
    ensures r.Edited? ==> |r.dataUrl| > |PngDataUrl| && r.dataUrl[..|PngDataUrl|] == PngDataUrl
    ensures reply.RequestFailed? ==> r == Failed(reply.error)
    ensures r.Failed? && !reply.RequestFailed? ==> r.message == NoImageMessage
  {
    if reply.RequestFailed? then Failed(reply.error)
    else match reply.candidates
    case None => Failed(NoImageMessage)
    case Some(cs) =>
      if cs == [] || cs[0].content.None? then Crashed
      else match cs[0].content.value.parts
        case None => Failed(NoImageMessage)
        case Some(parts) =>
          match FirstImage(parts)
          case Some(data) => Edited(PngDataUrl + data)
          case None => Failed(NoImageMessage)
  }

  /** What is sent: the stripped image data with its media type, then the prompt. */
  datatype ImageRequest = ImageRequest(data: string, mimeType: string, prompt: string)

  function Request(image: string, mimeType: string, prompt: string): ImageRequest {
    ImageRequest(StripDataUrl(image), mimeType, prompt)
  }

  /** `editImageWithGemini`: a missing key fails before anything is sent. */
  function EditImage(apiKey: string, reply: Reply): EditOutcome {
    if apiKey == "" then Failed(ImageKeyMessage) else ReplyOutcome(reply)
  }

  /** The missing-key message mentions the API key, which the app looks for. */
  lemma ImageKeyMentions()
    ensures Contains(ImageKeyMessage, KeyHint)
  {
    ContainsIff(ImageKeyMessage, KeyHint);
    IsAtMiddle("", KeyHint, " is required for image editing. Please configure it in Settings.");
    assert "" + KeyHint == KeyHint;
  }

  /** A reply whose first candidate has parts gives the first image in them, or the no-image error. */
  lemma EditImageParts(apiKey: string, parts: seq<Part>, rest: seq<Candidate>)
    requires apiKey != ""
    ensures var r := EditImage(apiKey, Reply(Some([Candidate(Some(Content(Some(parts))))] + rest)));
      (r.Edited? <==> exists i :: 0 <= i < |parts| && HasData(parts, i)) &&
      (r.Edited? ==> exists i :: 0 <= i < |parts| && HasData(parts, i) && r.dataUrl == PngDataUrl + parts[i].inlineData.value) &&
      (!r.Edited? ==> r == Failed(NoImageMessage))
  {
    FirstImageNone(parts);
    var r := EditImage(apiKey, Reply(Some([Candidate(Some(Content(Some(parts))))] + rest)));
    if r.Edited? {
      var i := FirstIndex(parts, 0);
      FirstImageFinds(parts, i);
    }
  }

  /** The position of the first part from `from` on with data, when there is one. */
  function FirstIndex(parts: seq<Part>, from: nat): (i: int)
    requires exists i :: from <= i < |parts| && HasData(parts, i)
    ensures from <= i < |parts| && HasData(parts, i)
    ensures forall j :: from <= j < i ==> !HasData(parts, j)
    decreases |parts| - from
  {
    if HasData(parts, from) then from else FirstIndex(parts, from + 1)
  }
}
