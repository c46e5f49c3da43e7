/**
 * The open/closed state holder of the LOLopener (class LOLOpenStatus).
 *
 * The sensor is the GPIO file of the kernel driver; here each read is an
 * integer passed in by the caller. The stored state `_is_open` keeps
 * Python's three values: True (open), False (closed) and None (the very
 * first read failed). None is falsy in every test the class makes, so it
 * behaves as "closed" until the first change to open.
 */
module OpenStatus {
  import opened Wrappers

  /** Python truthiness of the stored state: only True counts as open. */
  predicate Truthy(state: Option<bool>) {
    state == Some(true)
  }

  /** The raw level the sensor gives for a state: it is active low, 0 is open and 1 is closed. */
  function RawLevel(open: bool): (raw: int)
    ensures raw == 0 || raw == 1
  {
    if open then 0 else 1
  }

  /** Decoding of one reading (get_open_status without the file read). */
  function Decode(raw: int): (r: Option<bool>)
    ensures r.None? <==> raw != 0 && raw != 1
    ensures r.Some? ==> RawLevel(r.value) == raw
  {
    if raw == 1 then Some(false)
    else if raw == 0 then Some(true)
    else None
  }

  /** Decoding undoes the sensor's encoding of a state. */
  lemma DecodeRawLevel(open: bool)
    ensures Decode(RawLevel(open)) == Some(open)
  {
  }

  /** What `update` returns: None for an unreadable value, else whether the reading differs from the stored state. */
  function Reported(state: Option<bool>, raw: int): Option<bool> {
    match Decode(raw)
    case None => None
    case Some(reading) => Some(reading != Truthy(state))
  }

  /** The stored state after `update`: it is overwritten only when the reading differs. */
  function Next(state: Option<bool>, raw: int): Option<bool> {
    match Decode(raw)
    case None => state
    case Some(reading) => if reading != Truthy(state) then Some(reading) else state
  }

  /** An unreadable value never flips the state and reports None. */
  lemma UnknownKeepsState(state: Option<bool>, raw: int)
    requires raw != 0 && raw != 1
    ensures Reported(state, raw) == None
    ensures Next(state, raw) == state
  {
  }

  /** A change is reported exactly when the decoded reading differs from the stored state, and None exactly for an unreadable value. */
  lemma ReportedIffDiffers(state: Option<bool>, raw: int)
    ensures Reported(state, raw) == Some(true) <==> Decode(raw).Some? && Decode(raw).value != Truthy(state)
    ensures Reported(state, raw) == Some(false) <==> Decode(raw) == Some(Truthy(state))
    ensures Reported(state, raw) == None <==> Decode(raw) == None
  {
  }

  /** A change is reported exactly when the stored state moves. */
  lemma ReportedIffStateMoves(state: Option<bool>, raw: int)
    ensures Reported(state, raw) == Some(true) <==> Next(state, raw) != state
  {
  }

  /**
   * After a readable value the stored state agrees with that reading:
   * it is that reading, except that a None state stays None on a closed reading.
   */
  lemma NextAgreesWithReading(state: Option<bool>, raw: int)
    requires Decode(raw).Some?
    ensures Truthy(Next(state, raw)) == Decode(raw).value
    ensures state != None || raw == RawLevel(true) ==> Next(state, raw) == Decode(raw)
    ensures state == None && raw == RawLevel(false) ==> Next(state, raw) == None
  {
    match state
    case None =>
    case Some(open) =>
      if open {
        assert Truthy(state);
      } else {
        assert !Truthy(state);
      }
  }

  /** Repeating an update with the same reading reports no change and changes nothing. */
  lemma UpdateIdempotent(state: Option<bool>, raw: int)
    ensures Next(Next(state, raw), raw) == Next(state, raw)
    ensures Reported(Next(state, raw), raw) == if Decode(raw).None? then None else Some(false)
  {
  }

  /** A failed first read behaves as closed: a closed reading is no change, an open one is. */
  lemma FailedFirstReadActsClosed()
    ensures Reported(None, RawLevel(false)) == Some(false) && Next(None, RawLevel(false)) == None
    ensures Reported(None, RawLevel(true)) == Some(true) && Next(None, RawLevel(true)) == Some(true)
  {
  }

  /** Stored state after a run of updates, one reading each. */
  function AfterUpdates(state: Option<bool>, raws: seq<int>): Option<bool>
    decreases |raws|
  {
    if raws == [] then state else AfterUpdates(Next(state, raws[0]), raws[1..])
  }

  /** Results of a run of updates, one reading each. */
  function Reports(state: Option<bool>, raws: seq<int>): (r: seq<Option<bool>>)
    ensures |r| == |raws|
    decreases |raws|
  {
    if raws == [] then [] else [Reported(state, raws[0])] + Reports(Next(state, raws[0]), raws[1..])
  }

  /** The most recent readable value of a run, if any. */
  function LastKnown(raws: seq<int>): Option<bool>
    decreases |raws|
  {
    if raws == [] then None
    else if Decode(raws[|raws| - 1]).Some? then Decode(raws[|raws| - 1])
    else LastKnown(raws[..|raws| - 1])
  }

  lemma {:induction false} AfterUpdatesSnoc(state: Option<bool>, raws: seq<int>, raw: int)
    ensures AfterUpdates(state, raws + [raw]) == Next(AfterUpdates(state, raws), raw)
    decreases |raws|
  {
    if raws == [] {
      assert [raw][1..] == [];
    } else {
      assert (raws + [raw])[1..] == raws[1..] + [raw];
      AfterUpdatesSnoc(Next(state, raws[0]), raws[1..], raw);
    }
  }

  /** After any run of updates the stored state agrees with the most recent readable value, and is untouched if there was none. */
  lemma {:induction false} AfterUpdatesTracksLastKnown(state: Option<bool>, raws: seq<int>)
    ensures LastKnown(raws) == None ==> AfterUpdates(state, raws) == state
    ensures LastKnown(raws).Some? ==> Truthy(AfterUpdates(state, raws)) == LastKnown(raws).value
    decreases |raws|
  {
    if raws != [] {
      var init, last := raws[..|raws| - 1], raws[|raws| - 1];
      assert raws == init + [last];
      AfterUpdatesSnoc(state, init, last);
      AfterUpdatesTracksLastKnown(state, init);
      if Decode(last).Some? {
        NextAgreesWithReading(AfterUpdates(state, init), last);
      }
    }
  }

  /** The i-th update of a run reports a change exactly when it moves the stored state. */
  lemma {:induction false} ReportsMarkStateChanges(state: Option<bool>, raws: seq<int>, i: nat)
    requires i < |raws|
    ensures Reports(state, raws)[i] == Some(true) <==> AfterUpdates(state, raws[..i + 1]) != AfterUpdates(state, raws[..i])
    ensures Reports(state, raws)[i] == Reported(AfterUpdates(state, raws[..i]), raws[i])
    decreases i
  {
    if i == 0 {
      assert raws[..1] == [raws[0]];
      assert [raws[0]][1..] == [];
    } else {
      assert raws[1..][..i] == raws[1..i + 1] && raws[..i + 1][1..] == raws[1..i + 1];
      assert raws[1..][..i - 1] == raws[1..i] && raws[..i][1..] == raws[1..i];
      ReportsMarkStateChanges(Next(state, raws[0]), raws[1..], i - 1);
    }
  }

  /** The closed, closed, open, open, closed run reports false, false, true, false, true. */
  lemma ExampleRun()
    ensures Reports(Some(false), [1, 1, 0, 0, 1]) == [Some(false), Some(false), Some(true), Some(false), Some(true)]
    ensures AfterUpdates(Some(false), [1, 1, 0]) == Some(true)
    ensures AfterUpdates(Some(false), [1, 1, 0, 0, 1]) == Some(false)
  {
  }

  /** Index of the first reading that `update` reports as a change, while the state stays as given. */
  function FirstChange(state: Option<bool>, raws: seq<int>): (r: Option<nat>)
    ensures r.Some? ==> r.value < |raws| && Reported(state, raws[r.value]) == Some(true)
    ensures r.Some? ==> forall j :: 0 <= j < r.value ==> Reported(state, raws[j]) != Some(true)
    ensures r.None? ==> forall j :: 0 <= j < |raws| ==> Reported(state, raws[j]) != Some(true)
    decreases |raws|
  {
    if raws == [] then None
    else if Reported(state, raws[0]) == Some(true) then Some(0)
    else match FirstChange(state, raws[1..])
      case None => None
      case Some(k) => Some(k + 1)
  }

  class LOLOpenStatus {
    /** `_is_open`: the last stored state. */
    var openState: Option<bool>

    /** The constructor stores the decoding of a first reading, which may be None. */
    constructor (firstRaw: int)
      ensures openState == Decode(firstRaw)
    {
      openState := Decode(firstRaw);
    }

    /** `is_open`: the stored state, without a sensor read and without side effects. */
    function IsOpen(): (r: Option<bool>)
      reads this
      ensures r == openState
    {
      openState
    }

    /** `update`: edge detection of one reading against the stored state. */
    method Update(raw: int) returns (changed: Option<bool>)
      modifies this
      ensures changed == Reported(old(openState), raw)
      ensures openState == Next(old(openState), raw)
    {
      changed := Some(false);
      var status := Decode(raw);
      if status.None? {
        return None;
      }
      if !status.value && Truthy(openState) {
        changed := Some(true);
        openState := Some(false);
      } else if status.value && !Truthy(openState) {
        changed := Some(true);
        openState := Some(true);
      }
    }

    /**
     * `wait_change`: runs `update` on successive readings until one reports
     * a change, and returns the new stored state. The readings are finite
     * here: `found` is false when they run out without a change, which the
     * source would spend looping on.
     */
    method WaitChange(raws: seq<int>) returns (found: bool, used: nat, state: Option<bool>)
      modifies this
      ensures used <= |raws| && state == openState
      ensures openState == AfterUpdates(old(openState), raws[..used])
      ensures match FirstChange(old(openState), raws)
        case Some(k) => found && used == k + 1 && openState == Next(old(openState), raws[k])
                        && openState == Some(!Truthy(old(openState)))
        case None => !found && used == |raws| && openState == old(openState)
    {
      found, used := false, 0;
      while !found && used < |raws|
        invariant used <= |raws|
        invariant !found ==> openState == old(openState)
        invariant !found ==> forall j :: 0 <= j < used ==> Reported(old(openState), raws[j]) != Some(true)
        invariant found ==> 0 < used && Reported(old(openState), raws[used - 1]) == Some(true)
        invariant found ==> forall j :: 0 <= j < used - 1 ==> Reported(old(openState), raws[j]) != Some(true)
        invariant found ==> openState == Next(old(openState), raws[used - 1])
        decreases |raws| - used
      {
        var changed := Update(raws[used]);
        used := used + 1;
        found := changed == Some(true);
      }
      state := openState;
      ghost var initial := old(openState);
      NoChangeRunKeepsState(initial, raws[..if found then used - 1 else used]);
      if found {
        assert raws[..used] == raws[..used - 1] + [raws[used - 1]];
        AfterUpdatesSnoc(initial, raws[..used - 1], raws[used - 1]);
        FirstChangeIsFirst(initial, raws, used - 1);
      } else {
        assert raws[..used] == raws;
        NoChangeHasNoFirst(initial, raws);
      }
    }
  }

  /** A run in which no update reports a change leaves the stored state as it was. */
  lemma {:induction false} NoChangeRunKeepsState(state: Option<bool>, raws: seq<int>)
    requires forall j :: 0 <= j < |raws| ==> Reported(state, raws[j]) != Some(true)
    ensures AfterUpdates(state, raws) == state
    decreases |raws|
  {
    if raws != [] {
      ReportedIffStateMoves(state, raws[0]);
      assert forall j :: 0 <= j < |raws| - 1 ==> raws[1..][j] == raws[j + 1];
      NoChangeRunKeepsState(state, raws[1..]);
    }
  }

  /** The first reported change of a run is the one FirstChange names. */
  lemma FirstChangeIsFirst(state: Option<bool>, raws: seq<int>, k: nat)
    requires k < |raws| && Reported(state, raws[k]) == Some(true)
    requires forall j :: 0 <= j < k ==> Reported(state, raws[j]) != Some(true)
    ensures FirstChange(state, raws) == Some(k)
  {
    // Follows from FirstChange's contract.
  }

  /** A run with no reported change has no first change. */
  lemma NoChangeHasNoFirst(state: Option<bool>, raws: seq<int>)
    requires forall j :: 0 <= j < |raws| ==> Reported(state, raws[j]) != Some(true)
    ensures FirstChange(state, raws) == None
  {
    // Follows from FirstChange's contract.
  }
}
