/** Optional values, used for lookups that may find nothing. */
module Wrappers {

  datatype Option<+T> = None | Some(value: T)
}

/**
  The gesture labels of the application. Components exchange labels as plain
  strings; the six labels the simulated detector can emit are also given as an
  enumeration so that properties can range over them.
 */
module Gestures {
  import opened Wrappers

  /** The idle sentinel: no hand gesture is currently recognised. */
  const NoneLabel: string := "none"

  datatype Gesture = OpenPalm | Fist | ThumbsUp | SwipeLeft | SwipeRight | NoGesture

  /** The string label under which a gesture travels between components. */
  function Name(g: Gesture): string
  {
    match g
    case OpenPalm => "open_palm"
    case Fist => "fist"
    case ThumbsUp => "thumbs_up"
    case SwipeLeft => "swipe_left"
    case SwipeRight => "swipe_right"
    case NoGesture => NoneLabel
  }

  /** Recognises one of the six labels; any other string is unknown. */
  function Parse(s: string): (r: Option<Gesture>)
    ensures r.Some? ==> Name(r.value) == s
    ensures r.None? ==> forall g: Gesture :: Name(g) != s
  {
    if s == "open_palm" then Some(OpenPalm)
    else if s == "fist" then Some(Fist)
    else if s == "thumbs_up" then Some(ThumbsUp)
    else if s == "swipe_left" then Some(SwipeLeft)
    else if s == "swipe_right" then Some(SwipeRight)
    else if s == NoneLabel then Some(NoGesture)
    else None
  }

  /** A string is a known label iff some gesture carries it. */
  predicate IsKnown(s: string)
  {
    Parse(s).Some?
  }

  /** Parsing a gesture's label gives the gesture back, so labels are distinct. */
  lemma ParseName(g: Gesture)
    ensures Parse(Name(g)) == Some(g)
  {
  }

  lemma NameInjective(g: Gesture, h: Gesture)
    ensures Name(g) == Name(h) <==> g == h
  {
    ParseName(g);
    ParseName(h);
  }
}
