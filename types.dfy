/** The records of types.ts: the metadata record, its empty sentinel and the app state. */
module Types {
  import opened Wrappers

  /** The eight display strings shown on the frame; "" stands for unknown. */
  datatype ExifData = ExifData(
    make: string,
    model: string,
    lens: string,
    focalLength: string,
    fNumber: string,
    exposureTime: string,
    iso: string,
    dateTime: string)

  /** `keyof ExifData`: the field an edit names. */
  datatype Field = Make | Model | Lens | FocalLength | FNumber | ExposureTime | Iso | DateTime

  /** `INITIAL_EXIF`: every field unknown. */
  const InitialExif := ExifData("", "", "", "", "", "", "", "")

  /** `exif[key]`. */
  function Get(e: ExifData, k: Field): string {
    match k
    case Make => e.make
    case Model => e.model
    case Lens => e.lens
    case FocalLength => e.focalLength
    case FNumber => e.fNumber
    case ExposureTime => e.exposureTime
    case Iso => e.iso
    case DateTime => e.dateTime
  }

  /** `{ ...exif, [key]: v }`: the named field replaced, every other field kept. */
  function With(e: ExifData, k: Field, v: string): (r: ExifData)
    ensures Get(r, k) == v
    ensures forall j :: j != k ==> Get(r, j) == Get(e, j)
  {
    match k
    case Make => e.(make := v)
    case Model => e.(model := v)
    case Lens => e.(lens := v)
    case FocalLength => e.(focalLength := v)
    case FNumber => e.(fNumber := v)
    case ExposureTime => e.(exposureTime := v)
    case Iso => e.(iso := v)
    case DateTime => e.(dateTime := v)
  }

  /** `'left' | 'center' | 'right'`. */
  datatype Layout = Left | Center | Right

  function LayoutName(l: Layout): string {
    match l
    case Left => "left"
    case Center => "center"
    case Right => "right"
  }

  /** The uploaded `File`; only its identity matters to the state. */
  datatype FileHandle = FileHandle(id: nat)

  /** `AppState`: `file` and `imageSrc` may be null, `borderColor` and `layout` may be missing. */
  datatype AppState = AppState(
    file: Option<FileHandle>,
    imageSrc: Option<string>,
    exif: ExifData,
    isProcessing: bool,
    borderColor: Option<string>,
    layout: Option<Layout>)
}
