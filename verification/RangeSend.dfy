/**
 Streaming the updates of a range of slots: what was missed is caught up before the update of the current slot is sent.
 */
module RangeSend {
  import opened Options

  /** The slots from `a` to `b`; none when `b` lies before `a`. */
  function Interval(a: nat, b: int): seq<nat> {
    if b < a then [] else seq(b - a + 1, i requires 0 <= i => a + i)
  }

  lemma IntervalJoin(a: nat, b: int, c: int)
    requires a - 1 <= b <= c
    ensures Interval(a, b) + Interval(b + 1, c) == Interval(a, c)
  {
  }

  function Min(a: nat, b: nat): nat {
    if a < b then a else b
  }

  // ----- The stream as a value -----

  datatype Range = Range(start: nat, end: nat, lastSent: nat) {
    predicate RangeRequested() { start > 0 }
    predicate IsBounded() { end > 0 }

    /** The last slot that a stream which has seen the given slot has to send. */
    function Limit(slot: nat): nat {
      if IsBounded() then Min(slot, end) else slot
    }
  }

  /** Where the stream is, the slots that were sent, and whether it is done or an error came up. */
  datatype Sent = Sent(range: Range, slots: seq<nat>, done: bool, failed: bool)

  /** Errors of the callbacks: catching up fails after some slots were sent, or sending the update fails. */
  datatype Fault = NoFault | CatchUpFails(sent: nat) | SendFails

  /** The slots to catch up on before an update. */
  function Missed(r: Range, index: nat): seq<nat> {
    if r.RangeRequested() && index - 1 > r.lastSent then
      Interval(if r.start < r.lastSent + 1 then r.lastSent + 1 else r.start, r.Limit(index - 1))
    else []
  }

  function Handle(r: Range, index: nat, f: Fault): Sent {
    if r.RangeRequested() && index < r.start then Sent(r, [], false, false)
    else
      var catchUp, missed := r.RangeRequested() && index - 1 > r.lastSent, Missed(r, index);
      if catchUp && f.CatchUpFails? then Sent(r, missed[..Min(f.sent, |missed|)], false, true)
      else
        var r1 := if catchUp then r.(lastSent := r.Limit(index - 1)) else r;
        if r.IsBounded() && index > r.end then Sent(r1, missed, true, false)
        else if f.SendFails? then Sent(r1, missed, false, true)
        else Sent(r1.(lastSent := index), missed + [index], r.IsBounded() && index >= r.end, false)
  }

  /** All slots of the range up to the last sent one were sent, each once and in order. */
  ghost predicate UpToDate(r: Range, slots: seq<nat>) {
    && (r.IsBounded() ==> r.lastSent <= r.end) && slots == Interval(r.start, r.lastSent)
  }

  /** One update brings the stream up to the update's slot or to the end of the range. */
  lemma HandleKeepsUpToDate(r: Range, slots: seq<nat>, index: nat)
    requires r.RangeRequested() && UpToDate(r, slots) && index > r.lastSent
    ensures var h := Handle(r, index, NoFault);
            && !h.failed && UpToDate(h.range, slots + h.slots) && h.range.start == r.start && h.range.end == r.end
            && (index >= r.start ==> h.range.lastSent == r.Limit(index)) && (index < r.start ==> h.range == r)
            && (h.done <==> index >= r.start && r.IsBounded() && index >= r.end)
  {
    if index >= r.start {
      var upTo := r.Limit(index - 1);
      if index - 1 > r.lastSent {
        if r.lastSent + 1 >= r.start {
          IntervalJoin(r.start, r.lastSent, upTo);
        }
      }
      if !(r.IsBounded() && index > r.end) {
        IntervalJoin(r.start, index - 1, index);
        assert Interval(index, index) == [index];
      }
    }
  }

  /** After an error the stream is still up to date, so that a later update neither skips nor repeats anything, exactly when
      catching up failed before its first slot or it was the update itself that failed. */
  lemma ErrorKeepsUpToDateIff(r: Range, slots: seq<nat>, index: nat, f: Fault)
    requires r.RangeRequested() && UpToDate(r, slots) && index > r.lastSent && Handle(r, index, f).failed
    ensures var h := Handle(r, index, f);
            UpToDate(h.range, slots + h.slots) <==> f.SendFails? || f.sent == 0 || Missed(r, index) == []
  {
    var h := Handle(r, index, f);
    if f.CatchUpFails? {
      assert h.slots == [] <==> f.sent == 0 || Missed(r, index) == [];
      assert slots + h.slots == slots <==> h.slots == [] by { assert |slots + h.slots| == |slots| + |h.slots|; }
    } else if index - 1 > r.lastSent && r.lastSent + 1 >= r.start {
      IntervalJoin(r.start, r.lastSent, r.Limit(index - 1));
    }
  }

  /** What was sent when an error comes up, and what counts as sent: catching up sends the missed slots in order until it fails, and
      none of them counts; when the update itself fails, the missed slots count. The stream is never done then. */
  lemma ErrorSends(r: Range, slots: seq<nat>, index: nat, f: Fault)
    requires r.RangeRequested() && UpToDate(r, slots) && index > r.lastSent && Handle(r, index, f).failed
    ensures var h, base := Handle(r, index, f), if r.lastSent < r.start then r.start - 1 else r.lastSent;
            && !h.done && h.range.start == r.start && h.range.end == r.end
            && (f.CatchUpFails? ==> h.range == r && slots + h.slots == Interval(r.start, Min(base + f.sent, r.Limit(index - 1))))
            && (f.SendFails? ==> slots + h.slots == Interval(r.start, index - 1) && (h.range.lastSent == index - 1 || (h.range == r && index == r.start)))
  {
    var h, base := Handle(r, index, f), if r.lastSent < r.start then r.start - 1 else r.lastSent;
    if f.CatchUpFails? {
      var upTo := Min(base + f.sent, r.Limit(index - 1));
      assert Missed(r, index) == Interval(base + 1, r.Limit(index - 1));
      assert h.slots == Interval(base + 1, upTo);
      if base <= upTo {
        IntervalJoin(r.start, base, upTo);
      }
    } else if index - 1 > r.lastSent {
      IntervalJoin(r.start, base, index - 1);
    }
  }

  /** Without a requested range every update up to the end is sent by itself. */
  lemma UnrangedUpdate(r: Range, index: nat)
    requires !r.RangeRequested()
    ensures Handle(r, index, NoFault)
         == if r.end > 0 && index > r.end then Sent(r, [], true, false)
            else Sent(r.(lastSent := index), [index], r.end > 0 && index == r.end, false)
  {
  }

  /** An update for a slot that was sent already is sent again, and the stream goes back to it. */
  lemma RepeatedUpdate(r: Range, index: nat)
    requires r.RangeRequested() && r.start <= index <= r.lastSent && (r.IsBounded() ==> r.lastSent <= r.end)
    ensures Handle(r, index, NoFault) == Sent(r.(lastSent := index), [index], r.end > 0 && index == r.end, false)
  {
  }

  // ----- Whole streams -----

  /** Handles updates until the stream is done. */
  function HandleAll(r: Range, events: seq<nat>): Sent
    decreases |events|
  {
    if events == [] then Sent(r, [], false, false)
    else
      var h := Handle(r, events[0], NoFault);
      if h.done then h
      else
        var rest := HandleAll(h.range, events[1..]);
        Sent(rest.range, h.slots + rest.slots, rest.done, false)
  }

  ghost predicate Increasing(events: seq<nat>, after: nat) {
    && (forall i :: 0 <= i < |events| ==> events[i] > after)
    && (forall i, j :: 0 <= i < j < |events| ==> events[i] < events[j])
  }

  /** The highest slot the stream has to reach after some updates. */
  function Reached(r: Range, events: seq<nat>): nat {
    if events == [] || events[|events| - 1] < r.start then r.lastSent else r.Limit(events[|events| - 1])
  }

  /** For increasing updates, everything from the first unsent slot of the range up to the last update or the end of the range is
      sent exactly once and in order, and the stream is done exactly when its end is reached. */
  lemma {:induction false} StreamSendsRange(r: Range, slots: seq<nat>, events: seq<nat>)
    requires r.RangeRequested() && UpToDate(r, slots) && Increasing(events, r.lastSent)
    ensures var h := HandleAll(r, events);
            && slots + h.slots == Interval(r.start, Reached(r, events))
            && (h.done <==> events != [] && events[|events| - 1] >= r.start && r.IsBounded() && events[|events| - 1] >= r.end)
    decreases |events|
  {
    hide Handle, Interval;
    if events != [] {
      var h := Handle(r, events[0], NoFault);
      HandleKeepsUpToDate(r, slots, events[0]);
      var rest := events[1..];
      assert forall i :: 0 <= i < |rest| ==> rest[i] == events[i + 1];
      assert rest != [] ==> rest[|rest| - 1] == events[|events| - 1];
      if !h.done {
        StreamSendsRange(h.range, slots + h.slots, rest);
        assert slots + (h.slots + HandleAll(h.range, rest).slots) == (slots + h.slots) + HandleAll(h.range, rest).slots;
      } else {
        assert events[|events| - 1] >= events[0];
      }
    }
  }

  /** Opening a stream sends what is available already; a start that is no longer available is refused. */
  function Open(start: nat, end: nat, latest: nat, finalized: nat): Option<Sent> {
    if start == 0 || start > latest then Some(Sent(Range(start, end, 0), [], false, false))
    else if start <= finalized then None
    else
      var last := Range(start, end, 0).Limit(latest);
      Some(Sent(Range(start, end, last), Interval(start, last), end > 0 && last >= end, false))
  }

  /** From opening a stream over any number of updates, each slot of the range is sent exactly once and in order. */
  lemma {:induction false} OpenedStreamSendsRange(start: nat, end: nat, latest: nat, finalized: nat, events: seq<nat>)
    requires start > 0 && Open(start, end, latest, finalized).Some? && Increasing(events, latest)
    ensures var o := Open(start, end, latest, finalized).value; var r := Range(start, end, 0);
            var seen := if events == [] then latest else events[|events| - 1];
            o.slots + (if o.done then [] else HandleAll(o.range, events).slots) == Interval(start, if seen < start then 0 else r.Limit(seen))
  {
    var o := Open(start, end, latest, finalized).value;
    if !o.done {
      StreamSendsRange(o.range, o.slots, events);
    }
  }

  // ----- The stream itself -----

  class StreamRange {
    const start: nat
    const end: nat
    var lastSent: nat
    ghost var sent: seq<nat>

    ghost function Value(): Range
      reads this
    {
      Range(start, end, lastSent)
    }

    constructor (start: nat, end: nat)
      ensures Value() == Range(start, end, 0) && sent == []
    {
      this.start, this.end, lastSent, sent := start, end, 0, [];
    }

    method Send(index: nat)
      modifies this`sent
      ensures sent == old(sent) + [index]
    {
      sent := sent + [index];
    }

    /** Sends a range of slots one by one, until it fails. */
    method CatchUp(first: nat, last: nat, fault: Fault) returns (ok: bool)
      modifies this`sent
      ensures ok == !fault.CatchUpFails?
      ensures var all := Interval(first, last); sent == old(sent) + if ok then all else all[..Min(fault.sent, |all|)]
    {
      ghost var all := Interval(first, last);
      var currentIndex := first;
      while currentIndex <= last && !(fault.CatchUpFails? && currentIndex - first == fault.sent)
        invariant first <= currentIndex && (currentIndex <= last + 1 || currentIndex == first)
        invariant currentIndex - first <= |all| && sent == old(sent) + all[..currentIndex - first]
        invariant fault.CatchUpFails? ==> currentIndex - first <= fault.sent
        decreases last - currentIndex
      {
        ghost var done := currentIndex - first;
        assert all[done] == currentIndex && all[..done + 1] == all[..done] + [all[done]];
        Send(currentIndex);
        currentIndex := currentIndex + 1;
      }
      ok := !fault.CatchUpFails?;
      assert all[..|all|] == all;
    }

    /** Handles an update: catches up, sends it and tells whether the stream is done. */
    method HandleRangedSend(index: nat, fault: Fault) returns (done: bool, failed: bool)
      modifies this
      ensures var h := Handle(old(Value()), index, fault);
              Value() == h.range && sent == old(sent) + h.slots && done == h.done && failed == h.failed
    {
      hide Interval;
      if start > 0 && index < start {
        return false, false;
      }
      if start > 0 && index - 1 > lastSent {
        var startIndex := start;
        if startIndex < lastSent + 1 {
          startIndex := lastSent + 1;
        }
        var endIndex := index - 1;
        if end > 0 && endIndex > end {
          endIndex := end;
        }
        var ok := CatchUp(startIndex, endIndex, fault);
        if !ok {
          return false, true;
        }
        lastSent := endIndex;
      }
      if end > 0 && index > end {
        return true, false;
      }
      if fault.SendFails? {
        return false, true;
      }
      Send(index);
      lastSent := index;
      return end > 0 && index >= end, false;
    }
  }
}
