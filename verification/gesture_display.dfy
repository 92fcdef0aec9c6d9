/**
  The display helpers of the gesture card (src/components/GestureDisplay.tsx):
  the label formatter, the colour and icon lookups, and the `'none'` guards
  that choose what the card shows.
 */
module GestureDisplay {
  import opened Gestures
  import opened ActionTable

  datatype Theme = Light | Dark

  /** A Tailwind text colour such as `text-blue-400`: a family and a shade. */
  datatype TextColor = TextColor(family: Color, shade: nat)

  /** The icon components the card can show. */
  datatype Icon = Hand | Zap | Activity

  // Label formatting

  /** `toUpperCase` on one character; only the ASCII letters are mapped. */
  function Upper(c: char): char
  {
    if 'a' <= c <= 'z' then (c as int - 'a' as int + 'A' as int) as char else c
  }

  /** JavaScript's `join`: the parts with one separator between neighbours. */
  function Join(parts: seq<string>, sep: char): string
    requires |parts| >= 1
    decreases |parts|
  {
    if |parts| == 1 then parts[0] else parts[0] + [sep] + Join(parts[1..], sep)
  }

  /** JavaScript's `split` on one character: the separator-free pieces between separators, in order; `""` splits into `[""]`. */
  function Split(s: string, sep: char): (parts: seq<string>)
    ensures |parts| >= 1
    decreases |s|
  {
    if |s| == 0 then [[]]
    else
      var rest := Split(s[1..], sep);
      if s[0] == sep then [[]] + rest else [[s[0]] + rest[0]] + rest[1..]
  }

  /** Upper-cases the first character of a word and keeps the rest; the empty word stays empty. */
  function CapitalizeWord(w: string): string
  {
    if |w| == 0 then w else [Upper(w[0])] + w[1..]
  }

  /** `map(capitalize)`: each word capitalised, in place. */
  function CapitalizeAll(words: seq<string>): (r: seq<string>)
    ensures |r| == |words|
    ensures forall i :: 0 <= i < |words| ==> r[i] == CapitalizeWord(words[i])
    decreases |words|
  {
    if |words| == 0 then [] else [CapitalizeWord(words[0])] + CapitalizeAll(words[1..])
  }


  /** Whether position i begins a word: it is first (and `start` holds) or follows an `_`. */
  predicate WordStart(s: string, i: nat, start: bool)
    requires i < |s|
  {
    if i == 0 then start else s[i - 1] == '_'
  }

  /** What the formatter makes of the character at position i. */
  function FormattedChar(s: string, i: nat, start: bool): char
    requires i < |s|
  {
    if s[i] == '_' then ' '
    else if WordStart(s, i, start) then Upper(s[i])
    else s[i]
  }

  /** A left-to-right scan that formats character by character. */
  function Scan(s: string, start: bool): (r: string)
    ensures |r| == |s|
    ensures forall i :: 0 <= i < |s| ==> r[i] == FormattedChar(s, i, start)
    decreases |s|
  {
    if |s| == 0 then []
    else if s[0] == '_' then [' '] + Scan(s[1..], true)
    else [if start then Upper(s[0]) else s[0]] + Scan(s[1..], false)
  }

  lemma JoinConsChar(x: char, w: string, rest: seq<string>, sep: char)
    ensures Join([[x] + w] + rest, sep) == [x] + Join([w] + rest, sep)
  {
    if |rest| > 0 {
      assert ([[x] + w] + rest)[1..] == rest;
      assert ([w] + rest)[1..] == rest;
    }
  }

  /** Unfolding `Split` once. */
  lemma SplitCons(s: string, sep: char)
    requires |s| > 0
    ensures var rest := Split(s[1..], sep);
      Split(s, sep) == if s[0] == sep then [[]] + rest else [[s[0]] + rest[0]] + rest[1..]
  {
  }

  /** Joining the pieces with the separator gives the string back. */
  lemma {:induction false} SplitJoin(s: string, sep: char)
    ensures Join(Split(s, sep), sep) == s
    decreases |s|
  {
    if |s| > 0 {
      var rest := Split(s[1..], sep);
      SplitJoin(s[1..], sep);
      SplitCons(s, sep);
      assert s == [s[0]] + s[1..];
      if s[0] == sep {
        assert ([[]] + rest)[1..] == rest;
      } else {
        assert [rest[0]] + rest[1..] == rest;
        JoinConsChar(s[0], rest[0], rest[1..], sep);
      }
    }
  }

  /** There is one piece more than there are separators, and no piece contains one. */
  lemma {:induction false} SplitPieces(s: string, sep: char)
    ensures |Split(s, sep)| == multiset(s)[sep] + 1
    ensures forall i :: 0 <= i < |Split(s, sep)| ==> sep !in Split(s, sep)[i]
    decreases |s|
  {
    if |s| > 0 {
      var rest := Split(s[1..], sep);
      SplitPieces(s[1..], sep);
      SplitCons(s, sep);
      assert s == [s[0]] + s[1..];
      assert multiset(s) == multiset([s[0]]) + multiset(s[1..]);
      var parts := Split(s, sep);
      if s[0] != sep {
        assert forall i :: 1 <= i < |parts| ==> parts[i] == rest[i];
      }
    }
  }

  /** `CapitalizeWord` applied only when `start` holds. */
  function CapitalizeIf(start: bool, w: string): string
  {
    if start then CapitalizeWord(w) else w
  }

  /** Splitting, capitalising (the first piece only if `start`) and joining gives the scan. */
  predicate FormatsAsScan(s: string, start: bool)
  {
    var parts := Split(s, '_');
    Join([CapitalizeIf(start, parts[0])] + CapitalizeAll(parts[1..]), ' ') == Scan(s, start)
  }

  lemma ScanStepSeparator(s: string, start: bool)
    requires |s| > 0 && s[0] == '_' && FormatsAsScan(s[1..], true)
    ensures FormatsAsScan(s, start)
  {
    var rest := Split(s[1..], '_');
    assert CapitalizeAll(rest) == [CapitalizeWord(rest[0])] + CapitalizeAll(rest[1..]);
    assert Split(s, '_') == [[]] + rest;
    assert ([[]] + rest)[1..] == rest;
    assert ([[]] + CapitalizeAll(rest))[1..] == CapitalizeAll(rest);
  }

  lemma ScanStepOther(s: string, start: bool)
    requires |s| > 0 && s[0] != '_' && FormatsAsScan(s[1..], false)
    ensures FormatsAsScan(s, start)
  {
    var rest := Split(s[1..], '_');
    var c := if start then Upper(s[0]) else s[0];
    var parts := Split(s, '_');
    assert parts == [[s[0]] + rest[0]] + rest[1..];
    assert parts[1..] == rest[1..];
    assert CapitalizeIf(start, parts[0]) == [c] + rest[0];
    JoinConsChar(c, rest[0], CapitalizeAll(rest[1..]), ' ');
  }

  lemma {:induction false} FormatIsScan(s: string, start: bool)
    ensures FormatsAsScan(s, start)
    decreases |s|
  {
    if |s| > 0 {
      if s[0] == '_' {
        FormatIsScan(s[1..], true);
        ScanStepSeparator(s, start);
      } else {
        FormatIsScan(s[1..], false);
        ScanStepOther(s, start);
      }
    }
  }

  /**
    `formatGestureName`: split on `_`, capitalise each word, join with a space.
    The result is the one-pass scan, character by character.
   */
  function FormatGestureName(gesture: string): (r: string)
    ensures r == Scan(gesture, true)
    ensures |r| == |gesture|
  {
    var parts := Split(gesture, '_');
    FormatIsScan(gesture, true);
    assert CapitalizeAll(parts) == [CapitalizeWord(parts[0])] + CapitalizeAll(parts[1..]);
    Join(CapitalizeAll(parts), ' ')
  }

  /**
    The formatted name has the input's length; each `_` becomes a space, the
    first character of each word is upper-cased, every other character is kept.
   */
  lemma FormatPointwise(gesture: string)
    ensures |FormatGestureName(gesture)| == |gesture|
    ensures forall i :: 0 <= i < |gesture| ==>
              FormatGestureName(gesture)[i] == FormattedChar(gesture, i, true)
  {
    var parts := Split(gesture, '_');
    FormatIsScan(gesture, true);
    assert CapitalizeAll(parts) == [CapitalizeWord(parts[0])] + CapitalizeAll(parts[1..]);
  }

  /** No underscore survives formatting. */
  lemma FormatRemovesUnderscores(gesture: string)
    ensures '_' !in FormatGestureName(gesture)
  {
    FormatPointwise(gesture);
    var r := FormatGestureName(gesture);
    forall i | 0 <= i < |r|
      ensures r[i] != '_'
    {
      assert r[i] == FormattedChar(gesture, i, true);
    }
  }

  lemma UpperIdempotent(c: char)
    ensures Upper(Upper(c)) == Upper(c)
  {
  }

  /** Without underscores only the first character can change. */
  lemma FormatWithoutSeparators(t: string)
    requires '_' !in t
    ensures |FormatGestureName(t)| == |t|
    ensures |t| > 0 ==> FormatGestureName(t)[0] == Upper(t[0])
    ensures forall i :: 0 < i < |t| ==> FormatGestureName(t)[i] == t[i]
  {
    FormatPointwise(t);
  }

  /** Formatting twice is formatting once. */
  lemma FormatIdempotent(gesture: string)
    ensures FormatGestureName(FormatGestureName(gesture)) == FormatGestureName(gesture)
  {
    var once := FormatGestureName(gesture);
    FormatRemovesUnderscores(gesture);
    FormatWithoutSeparators(once);
    if |once| > 0 {
      FormatPointwise(gesture);
      assert once[0] == FormattedChar(gesture, 0, true);
      UpperIdempotent(gesture[0]);
      assert Upper(once[0]) == once[0];
    }
  }

  /** Formatting a given string character by character. */
  lemma FormatByCharacters(gesture: string, expected: string)
    requires |gesture| == |expected|
    requires forall i :: 0 <= i < |gesture| ==> FormattedChar(gesture, i, true) == expected[i]
    ensures FormatGestureName(gesture) == expected
  {
    FormatPointwise(gesture);
  }

  // The display names of the labels the detector emits.

  lemma FormatOpenPalm()
    ensures FormatGestureName("open_palm") == "Open Palm"
  {
    FormatByCharacters("open_palm", "Open Palm");
  }

  lemma FormatThumbsUp()
    ensures FormatGestureName("thumbs_up") == "Thumbs Up"
  {
    FormatByCharacters("thumbs_up", "Thumbs Up");
  }

  lemma FormatFist()
    ensures FormatGestureName("fist") == "Fist"
  {
    FormatByCharacters("fist", "Fist");
  }

  lemma FormatSwipeLeft()
    ensures FormatGestureName("swipe_left") == "Swipe Left"
  {
    FormatByCharacters("swipe_left", "Swipe Left");
  }

  lemma FormatSwipeRight()
    ensures FormatGestureName("swipe_right") == "Swipe Right"
  {
    FormatByCharacters("swipe_right", "Swipe Right");
  }

  // Colour and icon lookups

  /** `getGestureColor`: the shade depends on the theme only. */
  function GestureColor(gesture: string, theme: Theme): (c: TextColor)
    ensures c.shade == if theme == Dark then 400 else 600
    ensures c.family == Gray <==> gesture !in GestureActions
    ensures gesture in GestureActions ==> c.family == GestureActions[gesture].color
  {
    var family :=
      if gesture == "open_palm" then Blue
      else if gesture == "fist" then Red
      else if gesture == "thumbs_up" then Green
      else if gesture == "swipe_left" then Purple
      else if gesture == "swipe_right" then Pink
      else Gray;
    TextColor(family, if theme == Dark then 400 else 600)
  }

  /** The five labels with an action get five different colours. */
  lemma ColorsDistinct(a: string, b: string, theme: Theme)
    requires a in GestureActions && b in GestureActions
    ensures GestureColor(a, theme) == GestureColor(b, theme) <==> a == b
  {
    ActionsDistinct(a, b);
  }

  /** `getGestureIcon`: dedicated icons for fist and thumbs_up; `Hand` for open_palm and everything else. */
  function GestureIcon(gesture: string): (i: Icon)
    ensures i == Zap <==> gesture == "fist"
    ensures i == Activity <==> gesture == "thumbs_up"
    ensures i == Hand <==> gesture != "fist" && gesture != "thumbs_up"
  {
    if gesture == "open_palm" then Hand
    else if gesture == "fist" then Zap
    else if gesture == "thumbs_up" then Activity
    else Hand
  }

  // What the card shows

  /** The card's heading. */
  function Title(gesture: string): (t: string)
    ensures gesture == NoneLabel ==> t == "No Gesture"
    ensures gesture != NoneLabel ==>
              |t| == |gesture| && forall i :: 0 <= i < |gesture| ==> t[i] == FormattedChar(gesture, i, true)
  {
    if gesture != NoneLabel then FormatGestureName(gesture) else "No Gesture"
  }

  /** The confidence bar, the highlighted icon ring and the "detected" message share this guard. */
  function Detected(gesture: string): (d: bool)
    ensures Dispatchable(gesture) ==> d
    ensures IsKnown(gesture) ==> (d <==> Lookup(gesture).Some?)
    ensures !IsKnown(gesture) ==> d
  {
    gesture != NoneLabel
  }

  /** A label with no action is still shown as detected, while the panel has nothing to fire. */
  lemma UnmappedStillDetected(gesture: string)
    requires gesture != NoneLabel && Lookup(gesture).None?
    ensures Detected(gesture) && !Dispatchable(gesture)
  {
    DispatchableIffMapped(gesture);
  }

  /** Among the labels the detector emits, the heading reads "No Gesture" exactly for `'none'`. */
  lemma TitleNoGestureIffIdle(gesture: string)
    requires IsKnown(gesture)
    ensures Title(gesture) == "No Gesture" <==> gesture == NoneLabel
    ensures Title(gesture) == "No Gesture" <==> !Detected(gesture)
  {
    match Parse(gesture).value
    case OpenPalm => FormatOpenPalm();
    case Fist => FormatFist();
    case ThumbsUp => FormatThumbsUp();
    case SwipeLeft => FormatSwipeLeft();
    case SwipeRight => FormatSwipeRight();
    case NoGesture =>
  }

  /** For other strings the equivalence fails: `no_gesture` is also titled "No Gesture". */
  lemma TitleCollision()
    ensures Title("no_gesture") == "No Gesture" && Detected("no_gesture")
  {
    FormatByCharacters("no_gesture", "No Gesture");
  }
}
