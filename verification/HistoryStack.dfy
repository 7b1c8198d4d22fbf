/**
  The undo and redo stacks as fixed arrays of a hundred entries with a byte count.
 */
module HistoryStacks {
  import opened Basics
  import opened FlatText
  import opened LineEdits
  import H = History

  /** A captured text with the row and column of the cursor. */
  datatype Entry = Entry(text: Bytes, row: nat, col: nat)

  predicate EntryOk(e: Entry) {
    Insertable(e.text) && Position(Split(e.text), e.row, e.col)
  }

  function SnapOf(e: Entry): H.Snap
    requires EntryOk(e)
  {
    H.Snap(e.text, Offset(Split(e.text), e.row, e.col))
  }

  function SnapsOf(es: seq<Entry>): (r: seq<H.Snap>)
    requires forall i :: 0 <= i < |es| ==> EntryOk(es[i])
    ensures |r| == |es|
  {
    seq(|es|, i requires 0 <= i < |es| => SnapOf(es[i]))
  }

  /** A stack of good entries within the byte limit, and their total. */
  ghost predicate StackOk(es: seq<Entry>, total: int) {
    && |es| <= H.MAX_STATES
    && (forall i :: 0 <= i < |es| ==> EntryOk(es[i]))
    && total == H.TotalBytes(SnapsOf(es)) && total <= H.MAX_BYTES
  }

  lemma StackSnoc(es: seq<Entry>, e: Entry, total: int)
    requires StackOk(es, total) && EntryOk(e)
    requires |es| < H.MAX_STATES && total + |e.text| <= H.MAX_BYTES
    ensures StackOk(es + [e], total + |e.text|) && SnapsOf(es + [e]) == SnapsOf(es) + [SnapOf(e)]
  {
    hide EntryOk;
    assert SnapsOf(es + [e]) == SnapsOf(es) + [SnapOf(e)];
    assert SnapsOf(es + [e])[..|es|] == SnapsOf(es);
  }

  lemma StackFront(es: seq<Entry>, total: int)
    requires StackOk(es, total) && es != []
    ensures var n := |es| - 1;
            && EntryOk(es[n]) && StackOk(es[..n], total - |es[n].text|) && |es[n].text| <= total
            && SnapsOf(es[..n]) == SnapsOf(es)[..n] && SnapOf(es[n]) == SnapsOf(es)[n]
  {
    hide EntryOk;
    assert SnapsOf(es[..|es| - 1]) == SnapsOf(es)[..|es| - 1];
  }

  lemma StackRest(es: seq<Entry>, total: int)
    requires StackOk(es, total) && es != []
    ensures StackOk(es[1..], total - |es[0].text|) && |es[0].text| <= total
    ensures SnapsOf(es[1..]) == SnapsOf(es)[1..]
  {
    hide EntryOk, H.TotalBytes;
    assert SnapsOf(es[1..]) == SnapsOf(es)[1..];
    H.TotalBytesDrop(SnapsOf(es));
  }

  lemma StackEmpty()
    ensures StackOk([], 0) && SnapsOf([]) == []
  {
  }

  /** The room an entry needs, as the array's counters tell it. */
  lemma StackRoom(es: seq<Entry>, total: int, n: nat)
    requires StackOk(es, total)
    ensures |SnapsOf(es)| == |es| && (H.Room(SnapsOf(es), n) <==> |es| < H.MAX_STATES && total + n <= H.MAX_BYTES)
    ensures es == [] ==> total == 0
  {
  }

  const EMPTY := Entry([], 0, 0)

  class HistoryStack {
    const entries: array<Entry>
    var count: nat
    var totalBytes: int

    ghost predicate Valid()
      reads this, entries
    {
      entries.Length == H.MAX_STATES && count <= H.MAX_STATES && StackOk(entries[..count], totalBytes)
    }

    ghost function Snaps(): (r: seq<H.Snap>)
      requires Valid()
      reads this, entries
      ensures |r| == count
    {
      SnapsOf(entries[..count])
    }

    constructor ()
      ensures Valid() && fresh(entries) && Snaps() == []
    {
      entries := new Entry[H.MAX_STATES](_ => EMPTY);
      count, totalBytes := 0, 0;
      StackEmpty();
    }

    method Clear()
      requires Valid()
      modifies this, entries
      ensures Valid() && Snaps() == []
    {
      var i := 0;
      while i < count
        invariant 0 <= i <= count <= H.MAX_STATES
      {
        entries[i] := EMPTY;
        i := i + 1;
      }
      count := 0;
      totalBytes := 0;
      StackEmpty();
    }

    method DropOldest()
      requires Valid() && count > 0
      modifies this, entries
      ensures Valid() && count == old(count) - 1 && Snaps() == old(Snaps())[1..]
    {
      hide StackOk, SnapsOf;
      ghost var es, total := entries[..count], totalBytes;
      StackRest(es, total);
      var removed := |entries[0].text|;
      assert removed == |es[0].text|;
      ShiftDown();
      count := count - 1;
      totalBytes := if removed <= totalBytes then totalBytes - removed else 0;
      assert totalBytes == total - |es[0].text|;
      ghost var rest := es[1..];
      assert entries[..count] == rest;
      assert StackOk(rest, totalBytes);
    }

    /** Moves every entry one place down and blanks the last. */
    method ShiftDown()
      requires 0 < count <= entries.Length
      modifies entries
      ensures entries[..count - 1] == old(entries[..count])[1..]
    {
      ghost var es := entries[..count];
      var i := 1;
      while i < count
        invariant 1 <= i <= count
        invariant forall j :: 0 <= j < i - 1 ==> entries[j] == es[j + 1]
        invariant forall j :: i - 1 <= j < count ==> entries[j] == es[j]
      {
        entries[i - 1] := entries[i];
        i := i + 1;
      }
      entries[count - 1] := EMPTY;
    }

    /** Pushes an entry, dropping the oldest ones until it fits. */
    method Push(entry: Entry)
      requires Valid() && EntryOk(entry)
      modifies this, entries
      ensures Valid() && Snaps() == H.Push(old(Snaps()), SnapOf(entry))
    {
      hide EntryOk, StackOk, SnapsOf, H.Room;
      if |entry.text| > H.MAX_BYTES {
        return;
      }
      ghost var n := |entry.text|;
      StackRoom(entries[..count], totalBytes, n);
      while count >= H.MAX_STATES || totalBytes + |entry.text| > H.MAX_BYTES
        invariant Valid() && (H.Room(Snaps(), n) <==> count < H.MAX_STATES && totalBytes + n <= H.MAX_BYTES)
        invariant count == 0 ==> totalBytes == 0
        invariant H.Evict(Snaps(), n) == H.Evict(old(Snaps()), n)
        decreases count
      {
        DropOldest();
        StackRoom(entries[..count], totalBytes, n);
      }
      ghost var was := entries[..count];
      StackSnoc(was, entry, totalBytes);
      entries[count] := entry;
      count := count + 1;
      totalBytes := totalBytes + |entry.text|;
      assert entries[..count] == was + [entry];
    }

    method Pop() returns (ok: bool, entry: Entry)
      requires Valid()
      modifies this, entries
      ensures Valid() && ok == (old(Snaps()) != [])
      ensures !ok ==> Snaps() == old(Snaps())
      ensures ok ==> EntryOk(entry) && SnapOf(entry) == old(Snaps())[|old(Snaps())| - 1]
                     && Snaps() == old(Snaps())[..|old(Snaps())| - 1]
    {
      hide EntryOk, StackOk, SnapsOf, SnapOf;
      ghost var es := entries[..count];
      StackRoom(es, totalBytes, 0);
      if count == 0 {
        return false, EMPTY;
      }
      StackFront(es, totalBytes);
      count := count - 1;
      entry := entries[count];
      entries[count] := EMPTY;
      assert entries[..count] == es[..count];
      totalBytes := if |entry.text| <= totalBytes then totalBytes - |entry.text| else 0;
      ok := true;
    }
  }
}
