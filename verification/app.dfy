/** The coordinate-entry state machine of the triangle viewer.

    The user types the six coordinates x1, y1, x2, y2, x3, y3 one at a time
    into a text buffer; Return parses the buffer and appends the value. After
    the sixth value the program switches to viewing the triangle, and Return
    there starts over.

    Parsing the buffer as `f32` is a call into the Rust standard library and
    is a parameter here (`Parser`); the properties that depend on it say what
    they assume of it.
 */
module App {
  import opened Wrappers
  import opened FloatSyntax
  import Calc

  datatype State = Entry | View

  /** `buf` is the text typed for the coordinate being entered, `triangle`
      the coordinates entered so far, and `hasPoint` whether `buf` already
      holds a decimal point. */
  datatype Model = Model(state: State, buf: string, triangle: seq<real>, hasPoint: bool)

  datatype Key = Return | Back | OtherKey

  /** The window events the program reacts to; everything else is `Other`. */
  datatype Event = KeyPressed(key: Key) | ReceivedCharacter(ch: char) | Other

  /** `str::parse::<f32>`: the value of the text, or `None` if it is not a number. */
  type Parser = string -> Option<real>

  /** Number of coordinates of a triangle, and of prompt labels. */
  const CoordinateCount: nat := 6

  /** The prompt labels, one per coordinate in entry order. */
  const Labels: seq<string> := [
    "first X coordinate",
    "first Y coordinate",
    "second X coordinate",
    "second Y coordinate",
    "third X coordinate",
    "third Y coordinate"
  ]

  // ---------------------------------------------------------------------------
  // Invariant

  /** What text entry can put into the buffer: digits, `-` and `.`, with `-`
      only in front and at most one `.`. */
  predicate WellFormedBuf(buf: string) {
    && (forall i | 0 <= i < |buf| :: IsDigit(buf[i]) || buf[i] == '-' || buf[i] == '.')
    && (forall i | 0 < i < |buf| :: buf[i] != '-')
    && (forall i, j | 0 <= i < j < |buf| :: buf[i] == '.' ==> buf[j] != '.')
  }

  /** The invariant of every reachable model: the buffer is well formed,
      `hasPoint` tracks the decimal point, fewer than six coordinates are
      held while entering, and exactly six with an empty buffer while
      viewing. */
  predicate Valid(m: Model) {
    && WellFormedBuf(m.buf)
    && (m.hasPoint <==> '.' in m.buf)
    && (m.state == Entry ==> |m.triangle| < CoordinateCount)
    && (m.state == View ==> |m.triangle| == CoordinateCount && m.buf == [])
  }

  // ---------------------------------------------------------------------------
  // Operations

  /** The initial model: entering the first coordinate into an empty buffer. */
  function Init(): (m: Model)
    ensures Valid(m) && m.state == Entry && |m.triangle| == 0
  {
    Model(Entry, [], [], false)
  }

  /** Removes the last character of the buffer, if any; removing the decimal
      point allows a new one. */
  function Backspace(m: Model): (r: Model)
    ensures r.state == m.state && r.triangle == m.triangle
    ensures m.buf == [] ==> r == m
    ensures m.buf != [] ==> r.buf + [m.buf[|m.buf| - 1]] == m.buf
    ensures Valid(m) ==> Valid(r)
  {
    if m.buf == [] then m
    else
      var popped := m.buf[|m.buf| - 1];
      var r := m.(buf := m.buf[..|m.buf| - 1]);
      if popped == '.' then r.(hasPoint := false) else r
  }

  /** Whether text entry appends `ch`: a digit always, a minus sign only as
      the first character, a decimal point only if there is none yet. */
  predicate Accepts(m: Model, ch: char) {
    IsDigit(ch) || (ch == '-' && m.buf == []) || (ch == '.' && !m.hasPoint)
  }

  /** Appending a character text entry accepts keeps the buffer well formed,
      and the buffer then holds a decimal point exactly if it did before or
      the character is one. */
  lemma AppendKeepsWellFormed(buf: string, ch: char)
    requires WellFormedBuf(buf)
    requires IsDigit(ch) || (ch == '-' && buf == []) || (ch == '.' && '.' !in buf)
    ensures WellFormedBuf(buf + [ch])
    ensures '.' in buf + [ch] <==> '.' in buf || ch == '.'
  {
    var b := buf + [ch];
    assert forall i | 0 <= i < |buf| :: b[i] == buf[i];
    assert b[|buf|] == ch;
    forall i, j | 0 <= i < j < |b| && b[i] == '.'
      ensures b[j] != '.'
    {
      if j == |buf| {
        assert b[i] == buf[i];
      }
    }
  }

  /** Appends a typed character to the buffer if it may start or continue a
      number; ignores it otherwise. */
  function TextEntry(m: Model, ch: char): (r: Model)
    ensures Accepts(m, ch) ==> r == m.(buf := m.buf + [ch], hasPoint := m.hasPoint || ch == '.')
    ensures !Accepts(m, ch) ==> r == m
    ensures Valid(m) && m.state == Entry ==> Valid(r)
  {
    assert Valid(m) && m.state == Entry && Accepts(m, ch) ==>
             WellFormedBuf(m.buf + [ch]) && ('.' in m.buf + [ch] <==> '.' in m.buf || ch == '.') by {
      if Valid(m) && m.state == Entry && Accepts(m, ch) {
        AppendKeepsWellFormed(m.buf, ch);
      }
    }
    var m1 := if IsDigit(ch) then m.(buf := m.buf + [ch]) else m;
    var m2 := if ch == '-' && m1.buf == [] then m1.(buf := m1.buf + [ch]) else m1;
    if ch == '.' && !m2.hasPoint then m2.(buf := m2.buf + [ch], hasPoint := true) else m2
  }

  /** Parses the buffer; on success appends the value, clears the buffer and
      switches to viewing once six coordinates are held. A buffer that does
      not parse is left as it is. */
  function Submit(m: Model, parse: Parser): (r: Model)
    ensures parse(m.buf).None? ==> r == m
    ensures parse(m.buf).Some? ==>
              && r.triangle == m.triangle + [parse(m.buf).value]
              && r.buf == [] && !r.hasPoint
              && (r.state == View <==> m.state == View || |r.triangle| == CoordinateCount)
    ensures Valid(m) && m.state == Entry ==> Valid(r)
  {
    match parse(m.buf)
    case None => m
    case Some(val) =>
      var r := m.(triangle := m.triangle + [val], buf := [], hasPoint := false);
      if |r.triangle| == CoordinateCount then r.(state := View) else r
  }

  /** Forgets the triangle and goes back to entering its first coordinate;
      the buffer is left alone. */
  function Reset(m: Model): (r: Model)
    ensures r.state == Entry && r.triangle == []
    ensures r.buf == m.buf && r.hasPoint == m.hasPoint
    ensures Valid(m) ==> Valid(r)
  {
    m.(triangle := [], state := Entry)
  }

  /** The event handler. While viewing, only Return has an effect, and it
      resets. While entering, Back, Return and typed characters edit or
      submit the buffer; the coordinates already entered are only ever
      extended, and viewing starts only on Return with six of them. */
  function OnEvent(m: Model, e: Event, parse: Parser): (r: Model)
    ensures m.state == View && e != KeyPressed(Return) ==> r == m
    ensures m.state == View && e == KeyPressed(Return) ==> r.state == Entry && r.triangle == [] && r.buf == m.buf
    ensures m.state == Entry ==> m.triangle <= r.triangle && |r.triangle| <= |m.triangle| + 1
    ensures m.state == Entry && r.state == View ==> e == KeyPressed(Return) && |r.triangle| == CoordinateCount
    ensures Valid(m) ==> Valid(r)
  {
    if m.state == View then
      if e == KeyPressed(Return) then Reset(m) else m
    else
      match e
      case KeyPressed(Back) => Backspace(m)
      case KeyPressed(Return) => Submit(m, parse)
      case ReceivedCharacter(ch) => TextEntry(m, ch)
      case _ => m
  }

  /** The model after a sequence of events, each handled in turn. */
  function Run(m: Model, es: seq<Event>, parse: Parser): (r: Model)
    ensures Valid(m) ==> Valid(r)
    decreases |es|
  {
    if es == [] then m else Run(OnEvent(m, es[0], parse), es[1..], parse)
  }

  // ---------------------------------------------------------------------------
  // Properties

  /** Backspace undoes an accepted keystroke. */
  lemma BackspaceUndoesTextEntry(m: Model, ch: char)
    requires Valid(m) && Accepts(m, ch)
    ensures Backspace(TextEntry(m, ch)) == m
  {
    var r := TextEntry(m, ch);
    assert r.buf[..|r.buf| - 1] == m.buf;
    if ch != '.' {
      assert m.hasPoint == r.hasPoint;
    }
  }

  /** Digits and at most one decimal point: a well-formed buffer once its
      sign is removed. */
  predicate UnsignedBody(u: string) {
    && (forall i | 0 <= i < |u| :: IsDigit(u[i]) || u[i] == '.')
    && (forall i, j | 0 <= i < j < |u| :: u[i] == '.' ==> u[j] != '.')
  }

  lemma UnsignedOfWellFormed(buf: string)
    requires WellFormedBuf(buf)
    ensures UnsignedBody(Unsigned(buf))
    ensures HasDigit(buf) <==> HasDigit(Unsigned(buf))
  {
    var u := Unsigned(buf);
    var off := |buf| - |u|;
    assert off == 0 || off == 1;
    forall i | 0 <= i < |u|
      ensures IsDigit(u[i]) || u[i] == '.'
    {
      assert u[i] == buf[i + off];
    }
    forall i, j | 0 <= i < j < |u| && u[i] == '.'
      ensures u[j] != '.'
    {
      assert u[i] == buf[i + off] && u[j] == buf[j + off];
    }
    if HasDigit(buf) {
      var d :| 0 <= d < |buf| && IsDigit(buf[d]);
      assert u[d - off] == buf[d];
    }
    if HasDigit(u) {
      var d :| 0 <= d < |u| && IsDigit(u[d]);
      assert buf[d + off] == u[d];
    }
  }

  /** In a body of digits and at most one point, every character other than
      the point at `k` is a digit. */
  lemma OthersAreDigits(u: string, k: nat)
    requires UnsignedBody(u) && k < |u| && u[k] == '.'
    ensures AllDigits(u[..k]) && AllDigits(u[k + 1..])
  {
    forall i | 0 <= i < |u| && i != k
      ensures IsDigit(u[i])
    {
      var lo, hi := if i < k then i else k, if i < k then k else i;
      assert u[lo] == '.' ==> u[hi] != '.';
    }
  }

  /** On a buffer text entry can produce, Rust's number syntax holds exactly
      when the buffer contains a digit: only "", "-", "." and "-." fail. */
  lemma {:induction false} DecimalIffHasDigit(buf: string)
    requires WellFormedBuf(buf)
    ensures IsDecimal(buf) <==> HasDigit(buf)
  {
    var u := Unsigned(buf);
    UnsignedOfWellFormed(buf);
    if IsDecimal(buf) {
      if |u| > 0 && AllDigits(u) {
        assert IsDigit(u[0]);
      } else {
        var k :| 0 <= k < |u| && u[k] == '.' && |u| > 1 && AllDigits(u[..k]) && AllDigits(u[k + 1..]);
        if k > 0 {
          assert IsDigit(u[..k][0]);
          assert IsDigit(u[0]);
        } else {
          assert IsDigit(u[1..][0]);
          assert IsDigit(u[1]);
        }
      }
    }
    if HasDigit(u) {
      var d :| 0 <= d < |u| && IsDigit(u[d]);
      if k :| 0 <= k < |u| && u[k] == '.' {
        OthersAreDigits(u, k);
        assert d != k;
      } else {
        assert AllDigits(u);
      }
    }
  }

  /** With a parser that accepts exactly Rust's number syntax, Return while
      entering appends a coordinate if and only if the buffer holds a digit. */
  lemma SubmitAppendsIffDigit(m: Model, parse: Parser)
    requires Valid(m) && m.state == Entry
    requires parse(m.buf).Some? <==> IsDecimal(m.buf)
    ensures |Submit(m, parse).triangle| == |m.triangle| + 1 <==> HasDigit(m.buf)
    ensures !HasDigit(m.buf) ==> Submit(m, parse) == m
  {
    DecimalIffHasDigit(m.buf);
  }

  /** The prompt label shown while entering: `LABELS[triangle.len()]`, always
      in range. */
  function PromptLabel(m: Model): (r: string)
    requires Valid(m) && m.state == Entry
    ensures |m.triangle| < |Labels| && r == Labels[|m.triangle|]
  {
    Labels[|m.triangle|]
  }

  /** The six coordinates of a triangle, in entry order. */
  function Coordinates(t: Calc.Tri): (r: seq<real>)
    ensures |r| == CoordinateCount
  {
    [t.a.x, t.a.y, t.b.x, t.b.y, t.c.x, t.c.y]
  }

  /** The triangle drawn while viewing, built from `triangle[0..5]`; its
      coordinates are exactly the entered ones. */
  function ViewTriangle(m: Model): (t: Calc.Tri)
    requires Valid(m) && m.state == View
    ensures Coordinates(t) == m.triangle
  {
    var c := m.triangle;
    Calc.Tri(Calc.Point(c[0], c[1]), Calc.Point(c[2], c[3]), Calc.Point(c[4], c[5]))
  }

  /** While viewing, every vertex of the entered triangle is drawn inside the
      drawing area, unless all three coincide. */
  lemma DrawnVerticesInView(m: Model, drawRect: Calc.Rect)
    requires Valid(m) && m.state == View
    requires drawRect.w > 0.0 && drawRect.h > 0.0
    requires !Calc.AllCoincide(ViewTriangle(m))
    ensures var t := ViewTriangle(m);
            var tr := Calc.ViewTransform(t, drawRect);
            Calc.InRect(Calc.Apply(tr, t.a), drawRect) && Calc.InRect(Calc.Apply(tr, t.b), drawRect)
            && Calc.InRect(Calc.Apply(tr, t.c), drawRect)
  {
    Calc.TransformKeepsVerticesInView(ViewTriangle(m), drawRect);
  }

  /** Handling two event sequences one after the other is handling their
      concatenation. */
  lemma {:induction false} RunAppend(m: Model, es: seq<Event>, fs: seq<Event>, parse: Parser)
    ensures Run(m, es + fs, parse) == Run(Run(m, es, parse), fs, parse)
    decreases |es|
  {
    if es != [] {
      assert (es + fs)[0] == es[0];
      assert (es + fs)[1..] == es[1..] + fs;
      RunAppend(OnEvent(m, es[0], parse), es[1..], fs, parse);
    } else {
      assert es + fs == fs;
    }
  }

  /** Typing "1" and then Return. */
  const EnterOne: seq<Event> := [ReceivedCharacter('1'), KeyPressed(Return)]

  /** Handling two events is handling the first, then the second. */
  lemma RunTwo(m: Model, e1: Event, e2: Event, parse: Parser)
    ensures Run(m, [e1, e2], parse) == OnEvent(OnEvent(m, e1, parse), e2, parse)
  {
    assert [e1, e2][1..] == [e2];
    assert Run(m, [e1, e2], parse) == Run(OnEvent(m, e1, parse), [e2], parse);
    assert Run(OnEvent(m, e1, parse), [e2], parse) == Run(OnEvent(OnEvent(m, e1, parse), e2, parse), [], parse);
  }

  /** Entering one coordinate into an empty buffer appends it, and the sixth
      one switches to viewing. */
  lemma EnterOneAppends(m: Model, parse: Parser)
    requires m.state == Entry && m.buf == [] && !m.hasPoint && |m.triangle| < CoordinateCount
    requires parse("1") == Some(1.0)
    ensures Run(m, EnterOne, parse)
         == Model(if |m.triangle| == CoordinateCount - 1 then View else Entry, [], m.triangle + [1.0], false)
  {
    assert TextEntry(m, '1') == m.(buf := "1");
    RunTwo(m, ReceivedCharacter('1'), KeyPressed(Return), parse);
  }

  /** Typing "1" and Return six times from the start, with a parser that
      reads "1" as one, reaches the view of the triangle (1, 1), (1, 1),
      (1, 1) with an empty buffer. */
  lemma SixEntriesReachView(parse: Parser)
    requires parse("1") == Some(1.0)
    ensures Run(Init(), EnterOne + EnterOne + EnterOne + EnterOne + EnterOne + EnterOne, parse)
         == Model(View, [], [1.0, 1.0, 1.0, 1.0, 1.0, 1.0], false)
  {
    var e := EnterOne;
    var m0 := Init();
    EnterOneAppends(m0, parse);
    var m1 := Run(m0, e, parse);
    EnterOneAppends(m1, parse);
    var m2 := Run(m1, e, parse);
    EnterOneAppends(m2, parse);
    var m3 := Run(m2, e, parse);
    EnterOneAppends(m3, parse);
    var m4 := Run(m3, e, parse);
    EnterOneAppends(m4, parse);
    var m5 := Run(m4, e, parse);
    EnterOneAppends(m5, parse);
    RunAppend(m0, e, e, parse);
    RunAppend(m0, e + e, e, parse);
    RunAppend(m0, e + e + e, e, parse);
    RunAppend(m0, e + e + e + e, e, parse);
    RunAppend(m0, e + e + e + e + e, e, parse);
  }
}
