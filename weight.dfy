/** The nine named weights of the GUI toolkit's font type (`iced::font::Weight`), mirrored
    so that the viewer's own weight type can be converted to and from it. */
module IcedFont {

  datatype Weight = Thin | ExtraLight | Light | Normal | Medium | Semibold | Bold | ExtraBold | Black
}

/** `FVWeight`: the viewer's copy of the weight enumeration, offered in the weight combo box,
    with its two `From` conversions and its `Display` text. */
module FontWeight {
  import IcedFont

  datatype FVWeight = Thin | ExtraLight | Light | Normal | Medium | Semibold | Bold | ExtraBold | Black

  /** The options of the weight combo box, in the order `FontViewer::new` lists them. */
  const ComboBoxWeights: seq<FVWeight> :=
    [Thin, ExtraLight, Light, Normal, Medium, Semibold, Bold, ExtraBold, Black]

  /** The combo box offers every weight, each once. */
  lemma ComboBoxOffersEveryWeight(v: FVWeight)
    ensures v in ComboBoxWeights
    ensures forall i, j :: 0 <= i < j < |ComboBoxWeights| ==> ComboBoxWeights[i] != ComboBoxWeights[j]
  {
  }

  /** `impl From<Weight> for FVWeight`: variant by variant, no fallback. */
  function FromWeight(w: IcedFont.Weight): (v: FVWeight)
    ensures ToWeight(v) == w
  {
    match w
    case Thin => Thin
    case ExtraLight => ExtraLight
    case Light => Light
    case Normal => Normal
    case Medium => Medium
    case Semibold => Semibold
    case Bold => Bold
    case ExtraBold => ExtraBold
    case Black => Black
  }

  /** `impl From<FVWeight> for Weight`. */
  function ToWeight(w: FVWeight): IcedFont.Weight {
    match w
    case Thin => IcedFont.Thin
    case ExtraLight => IcedFont.ExtraLight
    case Light => IcedFont.Light
    case Normal => IcedFont.Normal
    case Medium => IcedFont.Medium
    case Semibold => IcedFont.Semibold
    case Bold => IcedFont.Bold
    case ExtraBold => IcedFont.ExtraBold
    case Black => IcedFont.Black
  }

  /** `impl Display for FVWeight`: the variant's own name. */
  function Name(w: FVWeight): (name: string)
    ensures |name| > 0
  {
    match w
    case Thin => "Thin"
    case ExtraLight => "ExtraLight"
    case Light => "Light"
    case Normal => "Normal"
    case Medium => "Medium"
    case Semibold => "Semibold"
    case Bold => "Bold"
    case ExtraBold => "ExtraBold"
    case Black => "Black"
  }

  /** The two conversions are inverse to each other, so each is a bijection. */
  lemma ConversionsAreInverse(w: IcedFont.Weight, v: FVWeight)
    ensures ToWeight(FromWeight(w)) == w
    ensures FromWeight(ToWeight(v)) == v
  {
  }

  /** Different weights are displayed differently, and no name is empty. */
  lemma NamesAreDistinct(v: FVWeight, u: FVWeight)
    ensures |Name(v)| > 0
    ensures Name(v) == Name(u) ==> v == u
  {
  }
}
