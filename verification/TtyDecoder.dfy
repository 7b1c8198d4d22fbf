/**
  The incremental decoder: a 64-byte buffer that is scanned and shifted in place. Each call is
  specified by TtyGrammar.CallOn.
 */
module TtyDecoders {
  import opened Basics
  import opened Decimals
  import opened TtyGrammar

  class TtyDecoder {
    var pending: array<Byte>
    var pendingLen: nat
    var lastMouseX: int
    var lastMouseY: int

    ghost predicate Valid()
      reads this
    {
      pending.Length == CAPACITY && pendingLen <= CAPACITY
    }

    ghost function Pending(): Bytes
      requires Valid()
      reads this, pending
    {
      pending[..pendingLen]
    }

    ghost function Last(): Pointer
      reads this
    {
      Pointer(lastMouseX, lastMouseY)
    }

    constructor ()
      ensures Valid() && fresh(pending) && Pending() == [] && Last() == Pointer(-1, -1)
    {
      pending := new Byte[CAPACITY](_ => 0);
      pendingLen, lastMouseX, lastMouseY := 0, -1, -1;
    }

    method Consume(used: nat)
      requires Valid()
      modifies this`pendingLen, pending
      ensures Valid() && Pending() == if used >= |old(Pending())| then [] else old(Pending())[used..]
    {
      if used == 0 || pendingLen == 0 {
        return;
      }
      if used >= pendingLen {
        pendingLen := 0;
        return;
      }
      ghost var all := pending[..];
      var i := 0;
      while i < pendingLen - used
        invariant Valid() && pendingLen == old(pendingLen) && 0 <= i <= pendingLen - used
        invariant forall j :: 0 <= j < i ==> pending[j] == all[j + used]
        invariant forall j :: i <= j < pending.Length ==> pending[j] == all[j]
      {
        pending[i] := pending[i + used];
        i := i + 1;
      }
      pendingLen := pendingLen - used;
    }

    /** Appends as many bytes as there is room for. */
    method Append(bytes: Bytes)
      requires Valid()
      modifies this`pendingLen, pending
      ensures Valid()
      ensures var room := CAPACITY - |old(Pending())|;
              Pending() == old(Pending()) + (if |bytes| <= room then bytes else bytes[..room])
    {
      var room := pending.Length - pendingLen;
      var n := if |bytes| > room then room else |bytes|;
      var i := 0;
      while i < n
        invariant Valid() && pendingLen == old(pendingLen) && 0 <= i <= n
        invariant forall j :: 0 <= j < i ==> pending[pendingLen + j] == bytes[j]
        invariant forall j :: 0 <= j < pendingLen ==> pending[j] == old(pending[j])
      {
        pending[pendingLen + i] := bytes[i];
        i := i + 1;
      }
      pendingLen := pendingLen + n;
      assert Pending() == old(Pending()) + bytes[..n];
    }

    /** Reads a number that starts at `idx`, never holding a value above INT32_MAX. */
    method ParseUint(idx: nat, len: nat) returns (ok: bool, value: nat, next: nat)
      requires Valid() && len <= pendingLen
      ensures ok == Number(pending[..len], idx).Some?
      ensures ok ==> Number(pending[..len], idx) == Some((value, next)) && idx < next <= len && value <= INT32_MAX
    {
      ghost var s := pending[..len];
      value, next := 0, idx;
      if idx >= len {
        return false, 0, idx;
      }
      var i := idx;
      while i < len && Digit(pending[i])
        invariant idx <= i <= len
        invariant forall k :: idx <= k < i ==> Digit(s[k])
        invariant value == Value(s, idx, i) <= INT32_MAX
        invariant RunEnd(s, idx) == RunEnd(s, i)
      {
        var digit := DigitValue(pending[i]);
        if value > (INT32_MAX - digit) / 10 {
          ghost var big := i;
          while i < len && Digit(pending[i])
            invariant big <= i <= len
            invariant forall k :: idx <= k < i ==> Digit(s[k])
            invariant RunEnd(s, idx) == RunEnd(s, i)
            invariant i > big ==> Value(s, idx, i) > INT32_MAX
          {
            i := i + 1;
          }
          return true, INT32_MAX, i;
        }
        value := value * 10 + digit;
        i := i + 1;
      }
      return i > idx, value, i;
    }

    // ----- Mouse reports -----

    method ParseReport(end: nat) returns (ok: bool, report: Report)
      requires Valid() && 3 <= end <= pendingLen
      ensures ok == ReportFields(pending[..end]).Some?
      ensures ok ==> ReportFields(pending[..end]) == Some(report)
    {
      hide Number;
      report := Report(0, 0, 0);
      var button, x, y, idx;
      ok, button, idx := ParseUint(3, end);
      if !ok {
        return;
      }
      if idx >= end || pending[idx] != ';' as Byte {
        return false, report;
      }
      ok, x, idx := ParseUint(idx + 1, end);
      if !ok {
        return;
      }
      if idx >= end || pending[idx] != ';' as Byte {
        return false, report;
      }
      ok, y, idx := ParseUint(idx + 1, end);
      if !ok {
        return;
      }
      if idx != end {
        return false, report;
      }
      return true, Report(button, x, y);
    }

    /** The end of the first report in the buffer, or of the buffer. */
    method FindReportEnd() returns (end: nat)
      requires Valid() && pendingLen >= 3
      ensures end <= pendingLen && end == FirstReportEnd(Pending(), 3)
    {
      ghost var p := Pending();
      end := 3;
      while end < pendingLen && !ReportEnd(pending[end])
        invariant 3 <= end <= pendingLen && FirstReportEnd(p, 3) == FirstReportEnd(p, end)
      {
        end := end + 1;
      }
    }

    method DecodeMouse() returns (emitted: bool, event: Event)
      requires Valid()
      modifies this, pending
      ensures Valid() && pending == old(pending)
      ensures var p, last := old(Pending()), old(Last());
              if !StartsMouse(p) then !emitted && Pending() == p && Last() == last
              else
                var item := MouseItem(p, last);
                && emitted == item.Emit?
                && (emitted ==> event == item.event)
                && Last() == Moved(item, last)
                && (if item.Wait? then Pending() == p else item.used <= |p| && Pending() == p[item.used..])
    {
      hide ReportFields, FirstReportEnd, MouseOf;
      event := ESCAPE_KEY;
      ghost var p := Pending();
      if pendingLen < 6 {
        return false, event;
      }
      if pending[0] != ESC || pending[1] != '[' as Byte || pending[2] != '<' as Byte {
        return false, event;
      }
      var end := FindReportEnd();
      if end == pendingLen {
        if pendingLen == pending.Length {
          Consume(1);
        }
        return false, event;
      }
      assert p[..end] == pending[..end];
      var release := pending[end] == 'm' as Byte;
      var ok, r := ParseReport(end);
      Consume(end + 1);
      assert Pending() == p[end + 1..];
      if !ok {
        return false, event;
      }
      var m := ReadButtons(r, release);
      lastMouseX, lastMouseY := m.x, m.y;
      return true, Mouse(m);
    }

    /** Turns the button number of a report into flags. */
    method ReadButtons(r: Report, release: bool) returns (m: MouseEvent)
      ensures m == MouseOf(r, release, Last())
    {
      var mx := if r.x > 0 then r.x - 1 else 0;
      var my := if r.y > 0 then r.y - 1 else 0;
      m := MouseEvent(mx, my, false, false, false, false, false, false, false, false);
      if mx != lastMouseX || my != lastMouseY {
        m := m.(moved := true);
      }
      var motion, wheel, button := Bit(r.button, 32), Bit(r.button, 64), r.button % 4;
      if wheel {
        if Bit(r.button, 1) {
          m := m.(scrollDown := true);
        } else {
          m := m.(scrollUp := true);
        }
        return;
      }
      if button == 2 {
        if release {
          m := m.(button3Clicked := true);
        } else {
          m := m.(button3Pressed := true);
          if !motion {
            m := m.(button3Clicked := true);
          }
        }
        return;
      }
      if button == 0 || button == 3 {
        if release || button == 3 {
          m := m.(button1Released := true);
          if !motion {
            m := m.(button1Clicked := true);
          }
        } else {
          m := m.(button1Pressed := true);
        }
      }
    }

    // ----- Cursor keys -----

    method ParseParameters(start: nat, end: nat) returns (ok: bool, last: nat, count: nat)
      requires Valid() && start <= end <= pendingLen
      ensures start == end ==> ok && last == 0 && count == 0
      ensures start < end ==> ok == Parameters(pending[..end], start).Some?
      ensures start < end && ok ==> Parameters(pending[..end], start) == Some((last, count))
    {
      hide Number;
      ghost var s := pending[..end];
      last, count := 0, 0;
      if start == end {
        return true, 0, 0;
      }
      var idx := start;
      while idx < end
        invariant start <= idx < end
        invariant Parameters(s, start).Some? == Parameters(s, idx).Some?
        invariant Parameters(s, start).Some? ==>
                    Parameters(s, start).value.0 == Parameters(s, idx).value.0
                    && Parameters(s, start).value.1 == count + Parameters(s, idx).value.1
        decreases end - idx
      {
        var parsed, value, next := ParseUint(idx, end);
        if !parsed {
          return false, 0, 0;
        }
        last, count, idx := value, count + 1, next;
        if idx == end {
          return true, last, count;
        }
        if pending[idx] != ';' as Byte {
          return false, 0, 0;
        }
        idx := idx + 1;
        if idx == end {
          return false, 0, 0;
        }
      }
      assert false;
    }

    method DecodeCsiKey(keys: KeyMap) returns (emitted: bool, event: Event)
      requires Valid() && pendingLen >= 2
      requires pending[0] == ESC && pending[1] == '[' as Byte && !StartsMouse(Pending())
      modifies this`pendingLen, pending
      ensures Valid()
      ensures var p := old(Pending());
              var item := CsiItem(p, keys);
              && emitted == item.Emit?
              && (emitted ==> event == item.event)
              && (if item.Wait? then Pending() == p else item.used <= |p| && Pending() == p[item.used..])
    {
      hide Parameters, Modifiers;
      event := ESCAPE_KEY;
      ghost var p := Pending();
      if pendingLen < 3 {
        return false, event;
      }
      var end := 2;
      while end < pendingLen && !FinalByte(pending[end])
        invariant 2 <= end <= pendingLen && FirstFinal(p, 2) == FirstFinal(p, end)
      {
        end := end + 1;
      }
      if end == pendingLen {
        if pendingLen == pending.Length {
          Consume(pendingLen);
          assert p[|p|..] == [];
        }
        return false, event;
      }
      assert p[..end] == pending[..end];
      ghost var key := CsiKey(keys, p[..end], p[end]);
      var code := ArrowKey(keys, pending[end]);
      var ok, last, count := ParseParameters(2, end);
      Consume(end + 1);
      assert Pending() == p[end + 1..];
      if code == 0 || !ok {
        return false, event;
      }
      var modifiers := 0;
      if count >= 2 {
        modifiers := Modifiers(last);
        if modifiers == 0 {
          return false, event;
        }
      } else if count == 1 && last != 1 {
        return false, event;
      }
      return true, KeyEvent(code, false, 0, 0, modifiers);
    }

    // ----- One call -----

    /** Takes an item that is no mouse report off a buffer with something in it. */
    method DecodeOther(keys: KeyMap) returns (emitted: bool, event: Event)
      requires Valid() && pendingLen > 0 && !StartsMouse(Pending())
      modifies this`pendingLen, pending
      ensures Valid()
      ensures var p := old(Pending());
              var item := ItemAt(p, keys, Last());
              && emitted == item.Emit? && (emitted ==> event == item.event && !event.Mouse?)
              && Pending() == if item.Wait? then p else p[item.used..]
    {
      hide MouseItem, CsiItem;
      var first := pending[0];
      if first == ESC {
        if pendingLen >= 2 && pending[1] == '[' as Byte {
          emitted, event := DecodeCsiKey(keys);
          return;
        }
        Consume(1);
        return true, ESCAPE_KEY;
      }
      Consume(1);
      var printable := 32 <= first <= 126;
      event := KeyEvent(if first == 13 then 10 else first, printable,
                        if printable then first else 0, if printable then first else 0, 0);
      emitted := true;
    }

    method Decode(keys: KeyMap) returns (emitted: bool, event: Event)
      requires Valid()
      modifies this, pending
      ensures Valid() && pending == old(pending)
      ensures var call := CallOn(old(Pending()), keys, old(Last()));
              && emitted == call.emitted.Some? && (emitted ==> event == call.emitted.value)
              && Pending() == call.rest && Last() == call.last
    {
      hide MouseItem, CsiItem, ItemAt;
      event := ESCAPE_KEY;
      ItemOf(Pending(), keys, Last());
      if pendingLen == 0 {
        return false, event;
      }
      emitted, event := DecodeMouse();
      if emitted {
        return;
      }
      if pendingLen == 0 {
        return false, event;
      }
      if pendingLen >= 3 && pending[0] == ESC && pending[1] == '[' as Byte && pending[2] == '<' as Byte {
        return false, event;
      }
      emitted, event := DecodeOther(keys);
    }
  }

  /** An empty buffer and one that starts a mouse report. */
  lemma ItemOf(p: Bytes, keys: KeyMap, last: Pointer)
    ensures p == [] ==> ItemAt(p, keys, last) == Wait
    ensures StartsMouse(p) ==> ItemAt(p, keys, last) == MouseItem(p, last)
  {
  }
}
