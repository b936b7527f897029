/**
 * The page state of App.tsx: one `AppState` record, the `downloading` flag
 * and the locale, and the handlers that update them. The metadata decoder,
 * the object URL, the clock and the success of the export are parameters.
 */
module App {
  import opened Wrappers
  import opened JsString
  import opened JsNumber
  import opened Types
  import opened ExifHelper

  /** The state the page starts from and `handleReset` returns to. */
  function InitialState(): (s: AppState)
    ensures s.file.None? && s.imageSrc.None? && s.exif == InitialExif && !s.isProcessing
    ensures s.borderColor == Some("#ffffff") && s.layout == Some(Left)
  {
    AppState(None, None, InitialExif, false, Some("#ffffff"), Some(Left))
  }

  /** The value `handleExifUpdate` stores: the four numeric fields go through
      their formatter, the others are stored as typed. */
  function Normalize(k: Field, v: string): string {
    match k
    case FocalLength => FormatFocalLength(v)
    case FNumber => FormatFNumber(v)
    case ExposureTime => FormatShutter(v)
    case Iso => FormatISO(v)
    case _ => v
  }

  /** Storing an edit keeps the focal length, aperture and ISO in their
      displayed form, and only the shutter can change when the same edit is
      stored twice. */
  lemma NormalizeKeepsNormalized(e: ExifData, k: Field, v: string)
    requires Normalized(e)
    ensures Normalized(With(e, k, Normalize(k, v)))
    ensures k != ExposureTime ==> Normalize(k, Normalize(k, v)) == Normalize(k, v)
  {
    match k
    case FocalLength => FocalLengthIdempotent(v);
    case FNumber => FNumberIdempotent(v);
    case Iso => ISOIdempotent(v);
    case _ =>
  }

  /** An edited date is stored as typed: a date in the EXIF layout
      `Y:M:D time` stays so, whereas extraction shows the same text as `Y.M.D`. */
  lemma EditedDateKeepsLayout(y: string, m: string, d: string, time: string)
    requires ':' !in y && ':' !in m && ':' !in d
    requires ' ' !in y && ' ' !in m && ' ' !in d
    ensures Normalize(DateTime, y + ":" + m + ":" + d + " " + time) == y + ":" + m + ":" + d + " " + time
    ensures Normalize(DateTime, y + ":" + m + ":" + d + " " + time) != FormatDate(y + ":" + m + ":" + d + " " + time)
  {
    DateOfExifLayout(y, m, d, time);
    assert |y + ":" + m + ":" + d + " " + time| != |y + "." + m + "." + d|;
  }

  /** `!state.imageSrc`: no image, or an empty source. */
  predicate HasImage(s: AppState) {
    s.imageSrc.Some? && s.imageSrc.value != ""
  }

  /** `state.borderColor || '#ffffff'`. */
  function EffectiveBorderColor(s: AppState): (c: string)
    ensures c != ""
    ensures s.borderColor.Some? && s.borderColor.value != "" ==> c == s.borderColor.value
  {
    if s.borderColor.Some? && s.borderColor.value != "" then s.borderColor.value else "#ffffff"
  }

  /** `state.layout || 'left'`. */
  function EffectiveLayout(s: AppState): Layout {
    if s.layout.Some? then s.layout.value else Left
  }

  /** Which of the three main views is shown. */
  datatype Screen = Upload | Processing | Editor

  function ScreenOf(s: AppState): (v: Screen)
    ensures v == Editor <==> HasImage(s)
    ensures v == Processing <==> !HasImage(s) && s.isProcessing
  {
    if !HasImage(s) then (if s.isProcessing then Processing else Upload) else Editor
  }

  /** The name the export is saved under: every white-space run of the model
      becomes one `-`, then it is lower-cased, framed by `frame-` and the time. */
  function DownloadFilename(model: string, now: nat): string {
    "frame-" + Lower(ReplaceSpaceRuns(model, '-')) + "-" + NatStr(now)
  }

  /** The file name holds no white space, starts with `frame-`, ends with the
      time, and keeps a model without white space as its lower-case self. */
  lemma DownloadFilenameSpec(model: string, now: nat)
    ensures NoSpace(DownloadFilename(model, now))
    ensures StartsWith(DownloadFilename(model, now), "frame-")
    ensures NoSpace(model) ==> DownloadFilename(model, now) == "frame-" + Lower(model) + "-" + NatStr(now)
  {
    var m := ReplaceSpaceRuns(model, '-');
    assert NoSpace(Lower(m)) by {
      ReplaceSpaceRunsSpec(model, '-');
      LowerKeepsNoSpace(m);
    }
    NatStrNoSpace(now);
    FramedName(Lower(m), NatStr(now));
    if NoSpace(model) {
      ReplaceSpaceRunsSpec(model, '-');
    }
  }

  /** Each white-space run of the model becomes exactly one `-`: a first word
      `a`, a run `w` and the rest `b` give `frame-<a>-<b'>-<time>`, where `b'`
      is the rest with its own runs replaced, and is `b` itself when `b` holds
      no white space. */
  lemma DownloadFilenameOfWords(a: string, w: string, b: string, now: nat)
    requires NoSpace(a) && w != [] && AllSpace(w) && (b == [] || !IsSpace(b[0]))
    ensures DownloadFilename(a + w + b, now)
      == "frame-" + Lower(a) + "-" + Lower(ReplaceSpaceRuns(b, '-')) + "-" + NatStr(now)
    ensures NoSpace(b) ==>
      DownloadFilename(a + w + b, now) == "frame-" + Lower(a) + "-" + Lower(b) + "-" + NatStr(now)
  {
    var rest := ReplaceSpaceRuns(b, '-');
    assert Lower(ReplaceSpaceRuns(a + w + b, '-')) == Lower(a) + "-" + Lower(rest) by {
      ReplaceSpaceRunsSplice(a, w, b, '-');
      LowerAroundDash(a, rest);
    }
    FramedParts(Lower(a), Lower(rest), NatStr(now));
    if NoSpace(b) {
      ReplaceSpaceRunsSpec(b, '-');
    }
  }

  /** Regrouping the parts of a framed name. */
  lemma FramedParts(p: string, q: string, t: string)
    ensures "frame-" + (p + "-" + q) + "-" + t == "frame-" + p + "-" + q + "-" + t
  {
  }

  /** Lower-casing keeps a `-` between two parts. */
  lemma LowerAroundDash(a: string, rest: string)
    ensures Lower(a + ['-'] + rest) == Lower(a) + "-" + Lower(rest)
  {
    LowerConcat(a + ['-'], rest);
    LowerConcat(a, ['-']);
  }

  /** `frame-<m>-<t>` keeps its prefix and adds no white space. */
  lemma FramedName(m: string, t: string)
    requires NoSpace(m) && NoSpace(t)
    ensures NoSpace("frame-" + m + "-" + t)
    ensures StartsWith("frame-" + m + "-" + t, "frame-")
  {
    var r := "frame-" + m + "-" + t;
    assert r[..6] == "frame-";
    forall i | 0 <= i < |r| ensures !IsSpace(r[i]) {
      if i < 6 {
        assert r[i] == "frame-"[i];
      } else if i < 6 + |m| {
        assert r[i] == m[i - 6];
      } else if i == 6 + |m| {
        assert r[i] == '-';
      } else {
        assert r[i] == t[i - 7 - |m|];
      }
    }
  }

  lemma NatStrNoSpace(n: nat)
    ensures NoSpace(NatStr(n))
  {
    NumeralCharsFacts(NatStr(n));
  }

  /** Lower-casing never produces white space. */
  lemma LowerKeepsNoSpace(s: string)
    requires NoSpace(s)
    ensures NoSpace(Lower(s))
  {
  }

  /** `locale === 'zh' ? 'en' : 'zh'`. */
  function NextLocale(l: string): (r: string)
    ensures r != l
    ensures r == "zh" || r == "en"
  {
    if l == "zh" then "en" else "zh"
  }

  /** Switching twice returns to a supported locale. */
  lemma NextLocaleInvolution(l: string)
    requires l == "zh" || l == "en"
    ensures NextLocale(NextLocale(l)) == l
  {
  }

  /** `localStorage.getItem('locale') || 'zh'`: the stored value, unchecked, or `zh`. */
  function InitialLocale(stored: Option<string>): (l: string)
    ensures l != ""
    ensures stored.Some? && stored.value != "" ==> l == stored.value
  {
    if stored.Some? && stored.value != "" then stored.value else "zh"
  }

  /** What one press of the download button did. */
  datatype DownloadOutcome = Skipped | Exported(filename: string, background: string) | Failed

  /** The page: its state record, the download flag and the locale. */
  class AppModel {
    var state: AppState
    var downloading: bool
    var locale: string

    /** The focal length, aperture and ISO shown are always in their formatted form. */
    ghost predicate Valid()
      reads this
    {
      Normalized(state.exif)
    }

    constructor (stored: Option<string>)
      ensures Valid()
      ensures state == InitialState() && !downloading && locale == InitialLocale(stored)
    {
      state := InitialState();
      downloading := false;
      locale := InitialLocale(stored);
      InitialIsNormalized();
    }

    /** `handleFileSelect`, first step: the record is kept and marked as processing. */
    method BeginUpload()
      requires Valid()
      modifies this
      ensures Valid()
      ensures state == old(state).(isProcessing := true)
      ensures downloading == old(downloading) && locale == old(locale)
    {
      state := state.(isProcessing := true);
    }

    /** `handleFileSelect`, last step: the record is replaced by one holding
        the file, its URL and the extracted metadata; colour and layout are
        dropped. `loaded` is what the decoder returned, `None` when it threw. */
    method CompleteUpload(file: FileHandle, url: string, loaded: Option<map<string, Tag>>)
      requires Valid()
      modifies this
      ensures Valid()
      ensures state == AppState(Some(file), Some(url), ExtractExif(loaded), false, None, None)
      ensures downloading == old(downloading) && locale == old(locale)
    {
      state := AppState(Some(file), Some(url), ExtractExif(loaded), false, None, None);
    }

    /** `handleFileSelect` from start to end. */
    method HandleFileSelect(file: FileHandle, url: string, loaded: Option<map<string, Tag>>)
      requires Valid()
      modifies this
      ensures Valid()
      ensures state == AppState(Some(file), Some(url), ExtractExif(loaded), false, None, None)
      ensures EffectiveBorderColor(state) == "#ffffff" && EffectiveLayout(state) == Left
      ensures downloading == old(downloading) && locale == old(locale)
    {
      BeginUpload();
      CompleteUpload(file, url, loaded);
    }

    /** `handleExifUpdate`: only the edited field changes, to its normalised value. */
    method HandleExifUpdate(k: Field, v: string)
      requires Valid()
      modifies this
      ensures Valid()
      ensures state == old(state).(exif := With(old(state).exif, k, Normalize(k, v)))
      ensures downloading == old(downloading) && locale == old(locale)
    {
      NormalizeKeepsNormalized(state.exif, k, v);
      state := state.(exif := With(state.exif, k, Normalize(k, v)));
    }

    /** `handleReset`: back to exactly the initial record. */
    method HandleReset()
      requires Valid()
      modifies this
      ensures Valid()
      ensures state == InitialState()
      ensures downloading == old(downloading) && locale == old(locale)
    {
      state := InitialState();
      InitialIsNormalized();
    }

    /** `handleDownload`: nothing without an image; otherwise the export is
        attempted (its success is `exportSucceeds`, the clock reads `now`) and
        the flag is cleared however it ends. */
    method HandleDownload(now: nat, exportSucceeds: bool) returns (outcome: DownloadOutcome)
      requires Valid()
      modifies this
      ensures Valid()
      ensures state == old(state) && locale == old(locale)
      ensures !HasImage(state) ==> outcome == Skipped && downloading == old(downloading)
      ensures HasImage(state) ==> !downloading
      ensures HasImage(state) && exportSucceeds ==>
        outcome == Exported(DownloadFilename(state.exif.model, now), EffectiveBorderColor(state))
      ensures HasImage(state) && !exportSucceeds ==> outcome == Failed
    {
      if !HasImage(state) {
        return Skipped;
      }
      downloading := true;
      if exportSucceeds {
        outcome := Exported(DownloadFilename(state.exif.model, now), EffectiveBorderColor(state));
      } else {
        outcome := Failed;
      }
      downloading := false;
    }

    /** The colour setter: only `borderColor` changes. */
    method SetBorderColor(c: string)
      requires Valid()
      modifies this
      ensures Valid()
      ensures state == old(state).(borderColor := Some(c))
      ensures c != "" ==> EffectiveBorderColor(state) == c
      ensures downloading == old(downloading) && locale == old(locale)
    {
      state := state.(borderColor := Some(c));
    }

    /** The layout setter: only `layout` changes. */
    method SetLayout(l: Layout)
      requires Valid()
      modifies this
      ensures Valid()
      ensures state == old(state).(layout := Some(l))
      ensures EffectiveLayout(state) == l
      ensures downloading == old(downloading) && locale == old(locale)
    {
      state := state.(layout := Some(l));
    }

    /** The language switch: always the other locale. */
    method SwitchLocale()
      modifies this
      ensures locale == NextLocale(old(locale)) && locale != old(locale)
      ensures state == old(state) && downloading == old(downloading)
    {
      locale := NextLocale(locale);
    }
  }

  /** The empty record is in formatted form: every formatter maps "" to "". */
  lemma InitialIsNormalized()
    ensures Normalized(InitialState().exif)
  {
  }
}
