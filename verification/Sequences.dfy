/** Catalog sequence numbers: nextSequence of internal/catalogservice/store.go. */
module Sequences {
  import opened Wrappers

  datatype Tap = Tap(id: string)

  const MAX_UINT64: nat := 0xFFFF_FFFF_FFFF_FFFF

  /** A sequence file: readable state, or contents that are refused. */
  datatype Record = Sequence(number: nat, source: string) | Corrupt

  predicate Sound(record: Record) { record.Sequence? && 0 < record.number <= MAX_UINT64 && record.source != "" }

  type Records = map<Tap, Record>

  /** What can make an allocation fail before it looks at the numbers. */
  datatype Answer = Number(number: nat) | Refused

  /** `ok` holds when the tap, the source identity and the owner directory pass their checks. */
  method NextSequence(records: Records, tap: Tap, source: string, ok: bool, write: Write)
    returns (answer: Answer, after: Records)
    requires ok ==> source != ""
    ensures after == After(records, tap, source, ok, write)
    ensures answer == AnswerOf(records, tap, source, ok, write)
  {
    after := records;
    if !ok {
      return Refused, after;
    }
    var current := 0;
    if tap in records {
      var state := records[tap];
      if !Sound(state) {
        return Refused, after;
      }
      if state.source == source {
        return Number(state.number), after;
      }
      current := state.number;
    }
    if current == MAX_UINT64 {
      return Refused, after;
    }
    var next := current + 1;
    if !write.NotDone? {
      after := records[tap := Sequence(next, source)];
    }
    if !write.Done? {
      return Refused, after;
    }
    return Number(next), after;
  }

  function Current(records: Records, tap: Tap): nat {
    if tap in records && records[tap].Sequence? then records[tap].number else 0
  }

  predicate Allocates(records: Records, tap: Tap, source: string, ok: bool) {
    && ok && (tap in records ==> Sound(records[tap]) && records[tap].source != source)
    && Current(records, tap) != MAX_UINT64
  }

  predicate Repeats(records: Records, tap: Tap, source: string, ok: bool) {
    ok && tap in records && Sound(records[tap]) && records[tap].source == source
  }

  function After(records: Records, tap: Tap, source: string, ok: bool, write: Write): Records {
    if Allocates(records, tap, source, ok) && !write.NotDone?
    then records[tap := Sequence(Current(records, tap) + 1, source)] else records
  }

  function AnswerOf(records: Records, tap: Tap, source: string, ok: bool, write: Write): Answer {
    if Repeats(records, tap, source, ok) then Number(Current(records, tap))
    else if Allocates(records, tap, source, ok) && write.Done? then Number(Current(records, tap) + 1)
    else Refused
  }

  // ----- Whole histories -----

  datatype Call = Call(tap: Tap, source: string, ok: bool, write: Write)

  function RecordsAt(records: Records, calls: seq<Call>): Records
    decreases |calls|
  {
    if calls == [] then records
    else
      var last := calls[|calls| - 1];
      After(RecordsAt(records, calls[..|calls| - 1]), last.tap, last.source, last.ok, last.write)
  }

  function AnswerAt(records: Records, calls: seq<Call>, k: nat): Answer
    requires k < |calls|
  {
    AnswerOf(RecordsAt(records, calls[..k]), calls[k].tap, calls[k].source, calls[k].ok, calls[k].write)
  }

  /** Numbers of a tap never go down. */
  lemma {:induction false} CurrentGrows(records: Records, calls: seq<Call>, i: nat, j: nat, tap: Tap)
    requires i <= j <= |calls|
    ensures Current(RecordsAt(records, calls[..i]), tap) <= Current(RecordsAt(records, calls[..j]), tap)
    ensures tap in RecordsAt(records, calls[..i]) && RecordsAt(records, calls[..i])[tap].Corrupt? ==>
      tap in RecordsAt(records, calls[..j]) && RecordsAt(records, calls[..j])[tap].Corrupt?
    decreases j - i
  {
    if i < j {
      CurrentGrows(records, calls, i, j - 1, tap);
      assert calls[..j][..j - 1] == calls[..j - 1];
    }
  }

  /** After a call that got a number, the record holds that number and that source. */
  lemma AnswerRecorded(records: Records, calls: seq<Call>, k: nat)
    requires k < |calls| && AnswerAt(records, calls, k).Number?
    ensures var after := RecordsAt(records, calls[..k + 1]); var call := calls[k];
      call.tap in after && after[call.tap] == Sequence(AnswerAt(records, calls, k).number, call.source)
  {
    assert calls[..k + 1][..k] == calls[..k];
  }

  /** While a tap's number stays the same, so does its source. */
  lemma {:induction false} SameNumberSameRecord(records: Records, calls: seq<Call>, i: nat, j: nat, tap: Tap)
    requires i <= j <= |calls| && tap in RecordsAt(records, calls[..i])
    requires Current(RecordsAt(records, calls[..i]), tap) == Current(RecordsAt(records, calls[..j]), tap)
    ensures tap in RecordsAt(records, calls[..j])
    ensures RecordsAt(records, calls[..i])[tap] == RecordsAt(records, calls[..j])[tap]
    decreases j - i
  {
    if i < j {
      CurrentGrows(records, calls, i, j - 1, tap);
      CurrentGrows(records, calls, j - 1, j, tap);
      SameNumberSameRecord(records, calls, i, j - 1, tap);
      assert calls[..j][..j - 1] == calls[..j - 1];
    }
  }

  /** In any history, the numbers a tap is given never go down, and a number is never given to
      two different sources: not even when writes fail after they took effect. */
  lemma NumbersIdentifySources(records: Records, calls: seq<Call>, i: nat, j: nat)
    requires i < j < |calls| && calls[i].tap == calls[j].tap
    requires AnswerAt(records, calls, i).Number? && AnswerAt(records, calls, j).Number?
    ensures AnswerAt(records, calls, i).number <= AnswerAt(records, calls, j).number
    ensures AnswerAt(records, calls, i).number == AnswerAt(records, calls, j).number ==>
      calls[i].source == calls[j].source
  {
    hide AnswerAt;
    var tap := calls[i].tap;
    AnswerRecorded(records, calls, i);
    AnswerRecorded(records, calls, j);
    CurrentGrows(records, calls, i + 1, j + 1, tap);
    if AnswerAt(records, calls, i).number == AnswerAt(records, calls, j).number {
      SameNumberSameRecord(records, calls, i + 1, j + 1, tap);
    }
  }

  /** While a tap is asked only for one source, its record stays. */
  lemma {:induction false} RecordStays(records: Records, calls: seq<Call>, i: nat, j: nat, tap: Tap, source: string)
    requires i <= j <= |calls| && tap in RecordsAt(records, calls[..i])
    requires RecordsAt(records, calls[..i])[tap].Sequence? && RecordsAt(records, calls[..i])[tap].source == source
    requires forall k | i <= k < j && calls[k].tap == tap :: calls[k].source == source
    ensures tap in RecordsAt(records, calls[..j])
    ensures RecordsAt(records, calls[..j])[tap] == RecordsAt(records, calls[..i])[tap]
    decreases j - i
  {
    if i < j {
      RecordStays(records, calls, i, j - 1, tap, source);
      assert calls[..j][..j - 1] == calls[..j - 1];
    }
  }

  /** In any history a source keeps its number until the tap is asked for another one. */
  lemma SourceKeepsNumber(records: Records, calls: seq<Call>, i: nat, j: nat)
    requires i < j < |calls| && AnswerAt(records, calls, i).Number? && AnswerAt(records, calls, j).Number?
    requires calls[j].tap == calls[i].tap
    requires forall k | i < k <= j && calls[k].tap == calls[i].tap :: calls[k].source == calls[i].source
    ensures AnswerAt(records, calls, j) == AnswerAt(records, calls, i)
  {
    hide AnswerAt;
    AnswerRecorded(records, calls, i);
    AnswerRecorded(records, calls, j);
    RecordStays(records, calls, i + 1, j + 1, calls[i].tap, calls[i].source);
  }

  /** Each call spends at most one number of a tap. */
  lemma {:induction false} CallsSpend(records: Records, calls: seq<Call>, tap: Tap)
    ensures Current(RecordsAt(records, calls), tap) <= Current(records, tap) + |calls|
    decreases |calls|
  {
    if calls != [] {
      CallsSpend(records, calls[..|calls| - 1], tap);
    }
  }

  /** Records stay sound. */
  lemma {:induction false} RecordsStaySound(records: Records, calls: seq<Call>, tap: Tap)
    requires tap in records ==> Sound(records[tap])
    requires forall k | 0 <= k < |calls| && calls[k].ok :: calls[k].source != ""
    ensures tap in RecordsAt(records, calls) ==> Sound(RecordsAt(records, calls)[tap])
    decreases |calls|
  {
    if calls != [] {
      RecordsStaySound(records, calls[..|calls| - 1], tap);
    }
  }

  /** Over sound records, a call whose checks and write succeed is refused only once the calls
      before it and the number it started from add up to the last uint64. */
  lemma RefusedOnlyWhenSpent(records: Records, calls: seq<Call>, k: nat)
    requires k < |calls| && calls[k].ok && calls[k].write.Done?
    requires calls[k].tap in records ==> Sound(records[calls[k].tap])
    requires forall i | 0 <= i < |calls| && calls[i].ok :: calls[i].source != ""
    requires AnswerAt(records, calls, k).Refused?
    ensures Current(records, calls[k].tap) + k >= MAX_UINT64
  {
    hide RecordsAt;
    RecordsStaySound(records, calls[..k], calls[k].tap);
    CallsSpend(records, calls[..k], calls[k].tap);
  }
}
