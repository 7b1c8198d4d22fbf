/**
  What the bytes of the terminal mean: mouse reports flag by flag, cursor keys with their modifiers,
  and plain keys, said of the numbers and letters printed.
 */
module InputLaws {
  import opened Basics
  import opened Decimals
  import opened TtyGrammar
  import opened TtyLaws

  // ----- Mouse reports -----

  /**
    A printed report emits one mouse event with the place counted from zero. Bit 64 of the button
    number is the wheel, its last bit the direction; otherwise the number modulo four is the button,
    three standing for a release, and bit 32 says the mouse moved with it.
   */
  lemma ReportMeans(button: nat, x: nat, y: nat, end: Byte, after: Bytes, keys: KeyMap, last: Pointer)
    requires ReportEnd(end) && |PrintReport(button, x, y, end) + after| <= CAPACITY
    ensures var call := CallOn(PrintReport(button, x, y, end) + after, keys, last);
            && call.emitted.Some? && call.emitted.value.Mouse? && call.rest == after
            && var m, b := call.emitted.value.mouse, Min(button, 0x7FFF_FFFF);
               var wheel, motion, press := b / 64 % 2 == 1, b / 32 % 2 == 1, end == 'M' as Byte;
               && m.x == Max(Min(x, 0x7FFF_FFFF) - 1, 0) && m.y == Max(Min(y, 0x7FFF_FFFF) - 1, 0)
               && call.last == Pointer(m.x, m.y)
               && (m.moved <==> m.x != last.x || m.y != last.y)
               && (m.scrollDown <==> wheel && b % 2 == 1)
               && (m.scrollUp <==> wheel && b % 2 == 0)
               && (m.button1Pressed <==> !wheel && b % 4 == 0 && press)
               && (m.button1Released <==> !wheel && (b % 4 == 3 || (b % 4 == 0 && !press)))
               && (m.button1Clicked <==> m.button1Released && !motion)
               && (m.button3Pressed <==> !wheel && b % 4 == 2 && press)
               && (m.button3Clicked <==> !wheel && b % 4 == 2 && (!press || !motion))
  {
    hide CallOn, PrintReport;
    PrintedReportDecodes(button, x, y, end, after, keys, last);
  }

  // ----- Cursor keys -----

  /** The key a final byte of a cursor key sequence stands for. */
  predicate IsArrow(keys: KeyMap, final: Byte, code: int) {
    || (final == 'A' as Byte && code == keys.up)
    || (final == 'B' as Byte && code == keys.down)
    || (final == 'C' as Byte && code == keys.right)
    || (final == 'D' as Byte && code == keys.left)
  }

  /** The final byte stands for a key that there is; the code 0 stands for none. */
  ghost predicate HasArrow(keys: KeyMap, final: Byte) {
    exists code :: code != 0 && IsArrow(keys, final, code)
  }

  lemma {:induction false} FirstFinalIs(p: Bytes, i: nat, k: nat)
    requires i <= k < |p| && FinalByte(p[k]) && forall j :: i <= j < k ==> !FinalByte(p[j])
    ensures FirstFinal(p, i) == k
    decreases k - i
  {
    if i < k {
      FirstFinalIs(p, i + 1, k);
    }
  }

  lemma ArrowKeyIs(keys: KeyMap, final: Byte)
    ensures ArrowKey(keys, final) != 0 <==> HasArrow(keys, final)
    ensures ArrowKey(keys, final) != 0 ==> IsArrow(keys, final, ArrowKey(keys, final))
  {
    assert ArrowKey(keys, final) != 0 ==> IsArrow(keys, final, ArrowKey(keys, final));
    forall code | code != 0 && IsArrow(keys, final, code)
      ensures ArrowKey(keys, final) == code
    {
    }
  }

  /** A call emits an arrow key with these modifiers exactly when it may, and consumes the sequence in any case. */
  ghost predicate EmitsArrow(
      call: Call, keys: KeyMap, final: Byte, may: bool, modifiers: nat, after: Bytes, last: Pointer) {
    && call.rest == after && call.last == last
    && (call.emitted.Some? <==> may && HasArrow(keys, final))
    && (call.emitted.Some? ==>
          exists code :: IsArrow(keys, final, code) && call.emitted.value == KeyEvent(code, false, 0, 0, modifiers))
  }

  /** What one call makes of a control sequence whose parameters are known. */
  lemma SequenceMeans(params: Bytes, final: Byte, after: Bytes, keys: KeyMap, last: Pointer)
    requires FinalByte(final) && forall j :: 0 <= j < |params| ==> !FinalByte(params[j])
    requires params != [] ==> params[0] != '<' as Byte
    requires 3 + |params| + |after| <= CAPACITY
    ensures var s := [ESC, '[' as Byte] + params;
            var key := CsiKey(keys, s, final);
            CallOn(s + [final] + after, keys, last) == Call(key, after, last)
  {
    hide CsiKey, FirstFinal;
    var s := [ESC, '[' as Byte] + params;
    var p := s + [final] + after;
    assert forall j :: 2 <= j < |s| ==> p[j] == params[j - 2];
    FirstFinalIs(p, 2, |s|);
    assert p[..|s|] == s && p[|s| + 1..] == after;
    assert p[2] == if params == [] then final else params[0];
  }

  /** ESC [ and a letter: an arrow without modifiers, or nothing at all. */
  lemma ArrowMeans(final: Byte, after: Bytes, keys: KeyMap, last: Pointer)
    requires FinalByte(final) && 3 + |after| <= CAPACITY
    ensures EmitsArrow(CallOn([ESC, '[' as Byte, final] + after, keys, last), keys, final, true, 0, after, last)
  {
    hide CallOn;
    assert [ESC, '[' as Byte] + [] == [ESC, '[' as Byte];
    assert [ESC, '[' as Byte, final] + after == [ESC, '[' as Byte] + [] + [final] + after;
    SequenceMeans([], final, after, keys, last);
    ArrowKeyIs(keys, final);
  }

  /** With one printed parameter only the number one makes an arrow. */
  lemma CountedArrowMeans(n: nat, final: Byte, after: Bytes, keys: KeyMap, last: Pointer)
    requires FinalByte(final) && 3 + |Decimal(n)| + |after| <= CAPACITY
    ensures EmitsArrow(CallOn([ESC, '[' as Byte] + Decimal(n) + [final] + after, keys, last),
                       keys, final, n == 1, 0, after, last)
  {
    hide CallOn, Decimal, Number;
    var head := [ESC, '[' as Byte];
    SequenceMeans(Decimal(n), final, after, keys, last);
    NumberOfDecimal(head, n, []);
    assert head + Decimal(n) + [] == head + Decimal(n);
    ArrowKeyIs(keys, final);
  }

  /** Shift is bit 1 of the modifiers, control 2, alt 4; a parameter less one counts shift 1, alt 2, control 4. */
  predicate ModifiersAre(parameter: nat, modifiers: nat) {
    && 2 <= parameter <= 8 && modifiers < 8
    && (modifiers % 2 == 1 <==> (parameter - 1) % 2 == 1)
    && (modifiers / 4 % 2 == 1 <==> (parameter - 1) / 2 % 2 == 1)
    && (modifiers / 2 % 2 == 1 <==> (parameter - 1) / 4 % 2 == 1)
  }

  function TwoNumbers(m: nat, n: nat): Bytes {
    Decimal(m) + [';' as Byte] + Decimal(n)
  }

  lemma ModifiersIs(n: nat)
    ensures 2 <= n <= 8 <==> Modifiers(n) != 0
    ensures 2 <= n <= 8 ==> ModifiersAre(n, Modifiers(n))
  {
  }

  /** With two printed parameters the second gives the modifiers: none, or shift, alt and control by 2 to 8. */
  lemma ModifiedArrowMeans(
      m: nat, n: nat, final: Byte, after: Bytes, keys: KeyMap, last: Pointer) returns (modifiers: nat)
    requires FinalByte(final) && 3 + |TwoNumbers(m, n)| + |after| <= CAPACITY
    ensures 2 <= n <= 8 ==> ModifiersAre(n, modifiers)
    ensures EmitsArrow(CallOn([ESC, '[' as Byte] + TwoNumbers(m, n) + [final] + after, keys, last),
                       keys, final, 2 <= n <= 8, modifiers, after, last)
  {
    hide CallOn, Decimal, Parameters, Modifiers, TwoNumbers, ModifiersAre;
    TwoParameters(m, n);
    SequenceMeans(TwoNumbers(m, n), final, after, keys, last);
    ArrowKeyIs(keys, final);
    ModifiersIs(n);
    ModifiersIs(Capped(n));
    modifiers := Modifiers(Capped(n));
  }

  lemma TwoParameters(m: nat, n: nat)
    ensures Parameters([ESC, '[' as Byte] + TwoNumbers(m, n), 2) == Some((Capped(n), 2))
    ensures TwoNumbers(m, n) != [] && Digit(TwoNumbers(m, n)[0])
    ensures forall j :: 0 <= j < |TwoNumbers(m, n)| ==> !FinalByte(TwoNumbers(m, n)[j])
  {
    hide Decimal, Number;
    var head, semi := [ESC, '[' as Byte], [';' as Byte];
    var s := head + TwoNumbers(m, n);
    NumberOfDecimal(head, m, semi + Decimal(n));
    assert head + Decimal(m) + (semi + Decimal(n)) == s;
    NumberOfDecimal(head + Decimal(m) + semi, n, []);
    assert head + Decimal(m) + semi + Decimal(n) + [] == s;
    assert s[2 + |Decimal(m)|] == ';' as Byte;
  }

  // ----- Plain keys -----

  /** Any other byte is a key of its own code, carriage return being Enter; only ASCII text is printable. */
  lemma PlainMeans(b: Byte, after: Bytes, keys: KeyMap, last: Pointer)
    requires 1 + |after| <= CAPACITY && (b == ESC ==> after == [] || after[0] != '[' as Byte)
    ensures CallOn([b] + after, keys, last) ==
            Call(Some(if b == 27 then KeyEvent(27, false, 0, 0, 0)
                      else if b == 13 then KeyEvent(10, false, 0, 0, 0)
                      else if 32 <= b <= 126 then KeyEvent(b, true, b, b, 0)
                      else KeyEvent(b, false, 0, 0, 0)), after, last)
  {
    assert ([b] + after)[1..] == after;
  }
}
