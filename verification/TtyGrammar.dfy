/**
  What stands at the head of the decoder's pending bytes, and what draining them yields. Control
  sequences have the form of section 5.4 of ECMA-48: ESC [, parameter bytes, a final byte.
 */
module TtyGrammar {
  import opened Basics
  import opened Decimals

  const CAPACITY := 64
  const ESC: Byte := 0x1B
  const INT32_MAX := 0x7FFF_FFFF

  datatype KeyMap = KeyMap(up: int, down: int, left: int, right: int)

  datatype MouseEvent = MouseEvent(
    x: int, y: int, moved: bool,
    button1Pressed: bool, button1Released: bool, button1Clicked: bool,
    button3Pressed: bool, button3Clicked: bool, scrollUp: bool, scrollDown: bool)

  datatype Event =
    | KeyEvent(code: int, printable: bool, ascii: Byte, codepoint: nat, modifiers: nat)
    | Mouse(mouse: MouseEvent)

  /** The last pointer position reported. */
  datatype Pointer = Pointer(x: int, y: int)

  // ----- Decimal numbers -----

  /** The value of the digits i..j. */
  function Value(s: Bytes, i: nat, j: nat): nat
    requires j <= |s| && forall k :: i <= k < j ==> Digit(s[k])
  {
    if j <= i then 0 else Value(s, i, j - 1) * 10 + DigitValue(s[j - 1])
  }

  function RunEnd(s: Bytes, i: nat): (j: nat)
    requires i <= |s|
    ensures i <= j <= |s| && (forall k :: i <= k < j ==> Digit(s[k])) && (j < |s| ==> !Digit(s[j]))
    decreases |s| - i
  {
    if i == |s| || !Digit(s[i]) then i else RunEnd(s, i + 1)
  }

  function Capped(n: nat): nat {
    if n > INT32_MAX then INT32_MAX else n
  }

  /** The number at `i`: the value of its maximal digit run, capped at INT32_MAX, and where it ends. */
  function Number(s: Bytes, i: nat): Option<(nat, nat)> {
    if i >= |s| || !Digit(s[i]) then None
    else Some((Capped(Value(s, i, RunEnd(s, i))), RunEnd(s, i)))
  }

  // ----- Mouse reports -----

  predicate StartsMouse(p: Bytes) {
    |p| >= 3 && p[0] == ESC && p[1] == '[' as Byte && p[2] == '<' as Byte
  }

  predicate ReportEnd(b: Byte) {
    b == 'M' as Byte || b == 'm' as Byte
  }

  function FirstReportEnd(p: Bytes, i: nat): (k: nat)
    requires i <= |p|
    ensures i <= k <= |p| && (k < |p| ==> ReportEnd(p[k])) && (forall j :: i <= j < k ==> !ReportEnd(p[j]))
    decreases |p| - i
  {
    if i == |p| || ReportEnd(p[i]) then i else FirstReportEnd(p, i + 1)
  }

  datatype Report = Report(button: nat, x: nat, y: nat)

  /** Three numbers with semicolons between and nothing else. */
  function ReportFields(s: Bytes): Option<Report> {
    var b := Number(s, 3);
    if b.None? || b.value.1 >= |s| || s[b.value.1] != ';' as Byte then None
    else
      var x := Number(s, b.value.1 + 1);
      if x.None? || x.value.1 >= |s| || s[x.value.1] != ';' as Byte then None
      else
        var y := Number(s, x.value.1 + 1);
        if y.None? || y.value.1 != |s| then None
        else Some(Report(b.value.0, x.value.0, y.value.0))
  }

  predicate Bit(n: nat, power: nat)
    requires power > 0
  {
    n / power % 2 == 1
  }

  function ZeroBased(n: nat): int {
    if n > 0 then n - 1 else 0
  }

  /** The meaning of a report: its place, and its button by the bits of its first number. */
  function MouseOf(r: Report, release: bool, last: Pointer): MouseEvent {
    var x, y := ZeroBased(r.x), ZeroBased(r.y);
    var none := MouseEvent(x, y, x != last.x || y != last.y, false, false, false, false, false, false, false);
    var motion := Bit(r.button, 32);
    if Bit(r.button, 64) then
      if Bit(r.button, 1) then none.(scrollDown := true) else none.(scrollUp := true)
    else if r.button % 4 == 2 then
      if release then none.(button3Clicked := true)
      else none.(button3Pressed := true, button3Clicked := !motion)
    else if r.button % 4 == 1 then none
    else if release || r.button % 4 == 3 then none.(button1Released := true, button1Clicked := !motion)
    else none.(button1Pressed := true)
  }

  // ----- Cursor keys -----

  predicate FinalByte(b: Byte) {
    0x40 <= b <= 0x7E
  }

  function FirstFinal(p: Bytes, i: nat): (k: nat)
    requires i <= |p|
    ensures i <= k <= |p| && (k < |p| ==> FinalByte(p[k])) && (forall j :: i <= j < k ==> !FinalByte(p[j]))
    decreases |p| - i
  {
    if i == |p| || FinalByte(p[i]) then i else FirstFinal(p, i + 1)
  }

  function ArrowKey(keys: KeyMap, b: Byte): int {
    if b == 'A' as Byte then keys.up
    else if b == 'B' as Byte then keys.down
    else if b == 'C' as Byte then keys.right
    else if b == 'D' as Byte then keys.left
    else 0
  }

  /** Numbers with semicolons between, from `i` to the end: the last of them and how many. */
  function Parameters(s: Bytes, i: nat): Option<(nat, nat)>
    decreases |s| - i
  {
    if i >= |s| then None
    else
      var n := Number(s, i);
      if n.None? then None
      else if n.value.1 == |s| then Some((n.value.0, 1))
      else if s[n.value.1] != ';' as Byte then None
      else
        var rest := Parameters(s, n.value.1 + 1);
        if rest.None? then None else Some((rest.value.0, rest.value.1 + 1))
  }

  const MOD_SHIFT := 1
  const MOD_CTRL := 2
  const MOD_ALT := 4

  /** Shift, alt and control from an xterm modifier parameter of 2 to 8. */
  function Modifiers(parameter: nat): nat {
    if parameter < 2 || parameter > 8 then 0
    else
      var e := parameter - 1;
      (if Bit(e, 1) then MOD_SHIFT else 0) + (if Bit(e, 2) then MOD_ALT else 0)
      + (if Bit(e, 4) then MOD_CTRL else 0)
  }

  /** The key a finished control sequence stands for: an arrow with at most a modifier. */
  function CsiKey(keys: KeyMap, s: Bytes, final: Byte): Option<Event> {
    var code := ArrowKey(keys, final);
    var params := if |s| == 2 then Some((0, 0)) else Parameters(s, 2);
    if code == 0 || params.None? then None
    else if params.value.1 >= 2 then
      var m := Modifiers(params.value.0);
      if m == 0 then None else Some(KeyEvent(code, false, 0, 0, m))
    else if params.value.1 == 1 && params.value.0 != 1 then None
    else Some(KeyEvent(code, false, 0, 0, 0))
  }

  function PlainKey(b: Byte): Event {
    var printable := 32 <= b <= 126;
    KeyEvent(if b == 13 then 10 else b, printable, if printable then b else 0, if printable then b else 0, 0)
  }

  const ESCAPE_KEY := KeyEvent(27, false, 0, 0, 0)

  // ----- The item at the head of the pending bytes -----

  datatype Item =
    | Wait
    | Skip(used: nat)
    | Emit(used: nat, event: Event)

  function MouseItem(p: Bytes, last: Pointer): Item
    requires StartsMouse(p)
  {
    var end := FirstReportEnd(p, 3);
    if |p| < 6 then Wait
    else if end == |p| then if |p| == CAPACITY then Skip(1) else Wait
    else
      var r := ReportFields(p[..end]);
      if r.None? then Skip(end + 1) else Emit(end + 1, Mouse(MouseOf(r.value, p[end] == 'm' as Byte, last)))
  }

  function CsiItem(p: Bytes, keys: KeyMap): (item: Item)
    requires |p| >= 2
    ensures item.Emit? ==> item.event.KeyEvent?
  {
    if |p| < 3 then Wait
    else
      var end := FirstFinal(p, 2);
      if end == |p| then if |p| == CAPACITY then Skip(|p|) else Wait
      else
        var key := CsiKey(keys, p[..end], p[end]);
        if key.None? then Skip(end + 1) else Emit(end + 1, key.value)
  }

  function ItemAt(p: Bytes, keys: KeyMap, last: Pointer): (item: Item)
    ensures !item.Wait? ==> 0 < item.used <= |p|
  {
    if p == [] then Wait
    else if StartsMouse(p) then MouseItem(p, last)
    else if p[0] == ESC then
      if |p| >= 2 && p[1] == '[' as Byte then CsiItem(p, keys) else Emit(1, ESCAPE_KEY)
    else Emit(1, PlainKey(p[0]))
  }

  /** A pointer position is remembered when a report is emitted. */
  function Moved(item: Item, last: Pointer): Pointer {
    if item.Emit? && item.event.Mouse? then Pointer(item.event.mouse.x, item.event.mouse.y) else last
  }

  function Emitted(item: Item): seq<Event> {
    if item.Emit? then [item.event] else []
  }

  datatype Drained = Drained(events: seq<Event>, rest: Bytes, last: Pointer)

  /** Everything that can be decoded, in order, and what is left over. */
  function Drain(p: Bytes, keys: KeyMap, last: Pointer): (d: Drained)
    ensures |d.rest| <= |p|
    decreases |p|
  {
    var item := ItemAt(p, keys, last);
    if item.Wait? then Drained([], p, last)
    else
      var d := Drain(p[item.used..], keys, Moved(item, last));
      d.(events := Emitted(item) + d.events)
  }

  // ----- One call of the decoder -----

  datatype Call = Call(emitted: Option<Event>, rest: Bytes, last: Pointer)

  /** A call takes one item, and after a mouse report that it threw away one more of another kind. */
  function CallOn(p: Bytes, keys: KeyMap, last: Pointer): Call {
    var item := ItemAt(p, keys, last);
    match item
    case Wait => Call(None, p, last)
    case Emit(n, e) => Call(Some(e), p[n..], Moved(item, last))
    case Skip(n) =>
      var rest := p[n..];
      if !StartsMouse(p) || StartsMouse(rest) then Call(None, rest, last)
      else
        var next := ItemAt(rest, keys, last);
        match next
        case Wait => Call(None, rest, last)
        case Skip(m) => Call(None, rest[m..], last)
        case Emit(m, e) => Call(Some(e), rest[m..], last)
  }
}
