/** The graphic box beside a paragraph: the list ordinal that replaces '#' in a numbered
    label, and the box width computed from the indentation level. */
module TileMarkers {
  import opened EditorTypes

  const INDENT_PADDING: real := 20.0

  /** What the graphic factory can return: a label (whose text may be missing) or some
      other node with its preferred width. */
  datatype GraphicNode = Label(text: Option<string>) | Graphic(prefWidth: real)

  predicate AtLevel(p: Paragraph, level: int) {
    p.decoration.indentationLevel == level
  }

  predicate IsBulleted(p: Paragraph) {
    p.decoration.graphicType == BulletedList
  }

  /** The ordinal counter after the scan has passed all of ps: a paragraph at another
      level is skipped, a bulleted one resets the counter to 0, any other adds 1. */
  function Counter(ps: seq<Paragraph>, level: int): (c: nat)
    ensures c <= |ps|
  {
    if ps == [] then 0
    else
      var c := Counter(ps[..|ps| - 1], level);
      var p := ps[|ps| - 1];
      if !AtLevel(p, level) then c
      else if IsBulleted(p) then 0
      else c + 1
  }

  /** The number of paragraphs at the given level. */
  function LevelCount(ps: seq<Paragraph>, level: int): nat {
    if ps == [] then 0
    else LevelCount(ps[..|ps| - 1], level) + (if AtLevel(ps[|ps| - 1], level) then 1 else 0)
  }

  /** Without a bulleted paragraph at the level, the ordinal counts every paragraph at it. */
  lemma {:induction false} CounterWithoutBullets(ps: seq<Paragraph>, level: int)
    requires forall i :: 0 <= i < |ps| && AtLevel(ps[i], level) ==> !IsBulleted(ps[i])
    ensures Counter(ps, level) == LevelCount(ps, level)
  {
    if ps != [] {
      CounterWithoutBullets(ps[..|ps| - 1], level);
    }
  }

  /** A bulleted paragraph at the level restarts the numbering: what comes before it no
      longer matters. */
  lemma {:induction false} CounterRestartsAfterBullet(ps: seq<Paragraph>, b: Paragraph, qs: seq<Paragraph>, level: int)
    requires AtLevel(b, level) && IsBulleted(b)
    ensures Counter(ps + [b] + qs, level) == Counter(qs, level)
    decreases |qs|
  {
    var all := ps + [b] + qs;
    if qs == [] {
      assert all[..|all| - 1] == ps;
    } else {
      assert all[..|all| - 1] == ps + [b] + qs[..|qs| - 1];
      CounterRestartsAfterBullet(ps, b, qs[..|qs| - 1], level);
    }
  }

  /** Paragraphs at other levels do not move the counter. */
  lemma {:induction false} CounterSkipsOtherLevels(ps: seq<Paragraph>, q: Paragraph, level: int)
    requires !AtLevel(q, level)
    ensures Counter(ps + [q], level) == Counter(ps, level)
  {
    assert (ps + [q])[..|ps + [q]| - 1] == ps;
  }

  /** Three numbered paragraphs at one level are numbered 1, 2, 3; a bulleted one
      between the first and the second makes the second number 1 again. */
  lemma NumberingExample(p1: Paragraph, p2: Paragraph, p3: Paragraph, b: Paragraph, level: int)
    requires AtLevel(p1, level) && AtLevel(p2, level) && AtLevel(p3, level) && AtLevel(b, level)
    requires !IsBulleted(p1) && !IsBulleted(p2) && !IsBulleted(p3) && IsBulleted(b)
    ensures Counter([p1], level) == 1 && Counter([p1, p2], level) == 2 && Counter([p1, p2, p3], level) == 3
    ensures Counter([p1, b, p2], level) == 1
  {
    assert [p1, p2][..1] == [p1];
    assert [p1, p2, p3][..2] == [p1, p2];
    assert [p1, b, p2][..2] == [p1, b];
    assert [p1, b][..1] == [p1];
  }

  /** The position of the first occurrence of target. */
  function FirstIndex(ps: seq<Paragraph>, target: Paragraph): (i: nat)
    requires target in ps
    ensures i < |ps| && ps[i] == target && target !in ps[..i]
  {
    if ps[0] == target then 0
    else
      var j := FirstIndex(ps[1..], target);
      assert ps[1..][..j] == ps[1..j + 1];
      1 + j
  }

  /** The ordinal a numbered label at `level` shows for target: the counter just after
      the first occurrence of target, or none when target is not in the list (or not at
      the level scanned). */
  function ListOrdinal(ps: seq<Paragraph>, level: int, target: Paragraph): (o: Option<nat>)
    ensures o.Some? <==> AtLevel(target, level) && target in ps
    ensures o.Some? ==> o.value <= FirstIndex(ps, target) + 1
  {
    if AtLevel(target, level) && target in ps then Some(Counter(ps[..FirstIndex(ps, target) + 1], level))
    else None
  }

  /** The ordinal scan of updateGraphicBox: walk the paragraphs at the target's level in
      order, counting as Counter does, and stop at the first one equal to the target. */
  method ComputeOrdinal(ps: seq<Paragraph>, level: int, target: Paragraph) returns (ordinal: Option<nat>)
    ensures ordinal == ListOrdinal(ps, level, target)
  {
    var counter: nat := 0;
    var i := 0;
    while i < |ps|
      invariant 0 <= i <= |ps|
      invariant counter == Counter(ps[..i], level)
      invariant AtLevel(target, level) ==> target !in ps[..i]
    {
      var p := ps[i];
      assert ps[..i + 1][..i] == ps[..i];
      if AtLevel(p, level) {
        if IsBulleted(p) {
          counter := 0;
        } else {
          counter := counter + 1;
        }
        if p == target {
          assert FirstIndex(ps, target) == i;
          return Some(counter);
        }
      }
      assert ps[..i + 1] == ps[..i] + [p];
      i := i + 1;
    }
    assert ps[..i] == ps;
    return None;
  }

  function Digit(d: nat): (c: char)
    requires d < 10
    ensures '0' <= c <= '9' && (c as int) - ('0' as int) == d
  {
    (('0' as int) + d) as char
  }

  /** Java's decimal rendering of a non-negative int. */
  function DecimalString(n: nat): (s: string)
    ensures |s| >= 1
    ensures forall i :: 0 <= i < |s| ==> '0' <= s[i] <= '9'
    // no leading zero: only 0 itself starts with '0'
    ensures s[0] == '0' ==> n == 0
  {
    if n < 10 then [Digit(n)] else DecimalString(n / 10) + [Digit(n % 10)]
  }

  /** Reads a string of decimal digits back as a number. */
  function DecimalValue(s: string): nat
    requires forall i :: 0 <= i < |s| ==> '0' <= s[i] <= '9'
  {
    if s == [] then 0
    else DecimalValue(s[..|s| - 1]) * 10 + ((s[|s| - 1] as int) - ('0' as int))
  }

  lemma {:induction false} DecimalRoundTrip(n: nat)
    ensures DecimalValue(DecimalString(n)) == n
  {
    if n >= 10 {
      var s := DecimalString(n);
      assert s[..|s| - 1] == DecimalString(n / 10);
      DecimalRoundTrip(n / 10);
    }
  }

  /** String.replace of a one-character pattern: every occurrence is replaced. */
  function ReplaceAll(text: string, pattern: char, replacement: string): (r: string)
    ensures pattern !in text ==> r == text
    ensures pattern !in replacement ==> pattern !in r
    ensures forall c :: c in r ==> (c in text && c != pattern) || c in replacement
  {
    if text == [] then []
    else
      var rest := ReplaceAll(text[1..], pattern, replacement);
      if text[0] == pattern then replacement + rest else [text[0]] + rest
  }

  /** One character: the pattern becomes the replacement, any other character stays. */
  lemma ReplaceAllChar(c: char, pattern: char, replacement: string)
    ensures ReplaceAll([c], pattern, replacement) == if c == pattern then replacement else [c]
  {
    assert [c][1..] == [];
  }

  /** Replacement works piece by piece, keeping the order of the text. */
  lemma {:induction false} ReplaceAllAppend(a: string, b: string, pattern: char, replacement: string)
    ensures ReplaceAll(a + b, pattern, replacement) == ReplaceAll(a, pattern, replacement) + ReplaceAll(b, pattern, replacement)
  {
    if a != [] {
      assert (a + b)[0] == a[0];
      assert (a + b)[1..] == a[1..] + b;
      ReplaceAllAppend(a[1..], b, pattern, replacement);
    } else {
      assert a + b == b;
    }
  }

  /** A text with a single occurrence of the pattern, at k: the text before k, then the
      replacement, then the text after k. */
  lemma SingleOccurrenceReplaced(text: string, k: int, pattern: char, replacement: string)
    requires 0 <= k < |text| && text[k] == pattern
    requires pattern !in text[..k] && pattern !in text[k + 1..]
    ensures ReplaceAll(text, pattern, replacement) == text[..k] + replacement + text[k + 1..]
  {
    assert text == text[..k] + ([text[k]] + text[k + 1..]);
    ReplaceAllAppend(text[..k], [text[k]] + text[k + 1..], pattern, replacement);
    ReplaceAllAppend([text[k]], text[k + 1..], pattern, replacement);
    ReplaceAllChar(text[k], pattern, replacement);
  }

  /** The text of a numbered label after the '#' placeholder is resolved: every '#'
      becomes the ordinal's decimal digits once the paragraph has an ordinal. */
  function ResolvedLabelText(text: string, ordinal: Option<nat>): (r: string)
    ensures '#' !in text || ordinal.None? ==> r == text
    ensures ordinal.Some? ==> r == ReplaceAll(text, '#', DecimalString(ordinal.value))
    ensures '#' in text && ordinal.Some? ==> '#' !in r
  {
    if '#' in text && ordinal.Some? then ReplaceAll(text, '#', DecimalString(ordinal.value)) else text
  }

  /** A label "#." (or any text with one '#') shows the ordinal's digits in place of the
      '#', and those digits read back as the ordinal. */
  lemma PlaceholderShowsOrdinal(text: string, k: int, o: nat)
    requires 0 <= k < |text| && text[k] == '#'
    requires '#' !in text[..k] && '#' !in text[k + 1..]
    ensures var r := ResolvedLabelText(text, Some(o));
      var digits := DecimalString(o);
      r == text[..k] + digits + text[k + 1..] &&
      r[k..k + |digits|] == digits && DecimalValue(r[k..k + |digits|]) == o
  {
    var digits := DecimalString(o);
    SingleOccurrenceReplaced(text, k, '#', digits);
    var before := text[..k];
    var r := before + digits + text[k + 1..];
    assert |before| == k;
    assert r[k..k + |digits|] == digits by {
      assert r == before + (digits + text[k + 1..]);
      assert (digits + text[k + 1..])[..|digits|] == digits;
    }
    DecimalRoundTrip(o);
  }

  /** The graphic node as shown: a label's '#' placeholder resolved, anything else as the
      factory returned it. */
  function ResolvedNode(node: GraphicNode, ordinal: Option<nat>): (r: GraphicNode)
    // a label with text shows its resolved text; any other node is unchanged
    ensures node.Label? && node.text.Some? ==> r == Label(Some(ResolvedLabelText(node.text.value, ordinal)))
    ensures !(node.Label? && node.text.Some?) ==> r == node
    ensures node.Label? && node.text.Some? && ordinal.Some? ==> '#' !in r.text.value
  {
    match node
    case Label(Some(text)) => Label(Some(ResolvedLabelText(text, ordinal)))
    case _ => node
  }

  /** Math.max on doubles (no NaN here). */
  function RMax(a: real, b: real): (m: real)
    ensures m >= a && m >= b
    ensures m == a || m == b
  {
    if a >= b then a else b
  }

  /** The indentation span: 20 per level, one level less when a graphic takes its place,
      and never negative. */
  function SpanPrefWidth(level: int, hasNode: bool): (w: real)
    ensures var x := ((level - if hasNode then 1 else 0) as real) * INDENT_PADDING;
      w >= 0.0 && w >= x && (w == x || w == 0.0)
  {
    RMax(((level - if hasNode then 1 else 0) as real) * INDENT_PADDING, 0.0)
  }

  /** The width of the graphic node itself; `labelTextWidth` is the measured width of a
      label's (resolved) text. A label without text is not measured. */
  function NodePrefWidth(node: GraphicNode, labelTextWidth: real): (w: real)
    // a label without text takes no width
    ensures node.Label? && node.text.None? ==> w == 0.0
    // a label with text: its measured width plus one, but at least 20
    ensures node.Label? && node.text.Some? ==>
      w >= labelTextWidth + 1.0 && w >= INDENT_PADDING && (w == labelTextWidth + 1.0 || w == INDENT_PADDING)
    // any other node: its own preferred width, but at least 20
    ensures node.Graphic? ==>
      w >= node.prefWidth && w >= INDENT_PADDING && (w == node.prefWidth || w == INDENT_PADDING)
  {
    match node
    case Label(text) => if text.Some? then RMax(labelTextWidth + 1.0, INDENT_PADDING) else 0.0
    case Graphic(prefWidth) => RMax(prefWidth, INDENT_PADDING)
  }

  /** The graphic box's width: the indentation span, plus the node's own width when the
      factory gave one (the span then being one level shorter). */
  function GraphicBoxWidth(level: int, node: Option<GraphicNode>, labelTextWidth: real): (w: real)
    ensures node.None? ==> w == SpanPrefWidth(level, false)
    ensures node.Some? ==> w == SpanPrefWidth(level, true) + NodePrefWidth(node.value, labelTextWidth)
  {
    match node
    case None => SpanPrefWidth(level, false)
    case Some(n) => SpanPrefWidth(level, true) + NodePrefWidth(n, labelTextWidth)
  }

  /** The graphic box is never narrower than the indentation (20 per level), and a box
      holding a graphic is at least 20 wide; the one exception is a label without text. */
  lemma GraphicBoxCoversIndentation(level: int, node: Option<GraphicNode>, labelTextWidth: real)
    requires !(node.Some? && node.value.Label? && node.value.text.None?)
    ensures GraphicBoxWidth(level, node, labelTextWidth) >= RMax((level as real) * INDENT_PADDING, 0.0)
    ensures node.Some? ==> GraphicBoxWidth(level, node, labelTextWidth) >= INDENT_PADDING
  {
  }
}
