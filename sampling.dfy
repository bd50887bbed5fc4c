/** The two sampled boot signals, over injected samples: the force-bootloader
    strap test (board_test_force_pin) and the USART break probe
    (board_test_usart_receiving_break). A sample is `true` when the pin reads
    high. */
module Sampling {

  /** The strapped-pair test drives the output pin high for 20 reads of the
      input pin, then low for 20, ten times over. */
  const Cycles: nat := 10
  const ReadsPerLevel: nat := 20
  const StrappedSamples: nat := 400
  /** The single-pin test reads its pin 200 times. */
  const SingleSamples: nat := 200

  /** Whether the output pin is driven high at read number j of the strapped
      pair test. */
  function DrivenHigh(j: nat): bool {
    j % 40 < 20
  }

  /** Read j of cycle c falls in the high half exactly for the first 20. */
  lemma DrivenAt(c: nat, i: nat)
    requires i < 40
    ensures DrivenHigh(40 * c + i) == (i < ReadsPerLevel)
  {
    assert (40 * c + i) % 40 == i;
  }

  /** How many of the first k reads follow the driven level. */
  function StrappedVotes(input: seq<bool>, k: nat): (v: nat)
    requires k <= |input|
    ensures v <= k
  {
    if k == 0 then 0
    else StrappedVotes(input, k - 1) + (if input[k - 1] == DrivenHigh(k - 1) then 1 else 0)
  }

  /** How many of the first k reads show the forcing level of a single pin. */
  function MatchingVotes(input: seq<bool>, state: bool, k: nat): (v: nat)
    requires k <= |input|
    ensures v <= k
  {
    if k == 0 then 0
    else MatchingVotes(input, state, k - 1) + (if input[k - 1] == state then 1 else 0)
  }

  /** The decision rule of both tests: strictly more than 90% agreement. */
  predicate Agrees(vote: nat, samples: nat) {
    vote * 100 > samples * 90
  }

  /** The strapped pins are detected. */
  predicate PinsStrapped(input: seq<bool>)
    requires |input| == StrappedSamples
  {
    Agrees(StrappedVotes(input, StrappedSamples), StrappedSamples)
  }

  /** The single pin shows its forcing level. */
  predicate PinForced(input: seq<bool>, state: bool)
    requires |input| == SingleSamples
  {
    Agrees(MatchingVotes(input, state, SingleSamples), SingleSamples)
  }

  /** The thresholds in votes: 361 of 400 and 181 of 200. */
  lemma Thresholds(vote: nat)
    ensures Agrees(vote, StrappedSamples) <==> vote >= 361
    ensures Agrees(vote, SingleSamples) <==> vote >= 181
  {
  }

  /** The strapped-pair half of board_test_force_pin: ten cycles of 20 reads
      with the output high, counting high inputs, then 20 with it low,
      counting low inputs. */
  method TestStrappedPins(input: seq<bool>) returns (strapped: bool, samples: nat)
    requires |input| == StrappedSamples
    ensures samples == StrappedSamples
    ensures strapped == PinsStrapped(input)
  {
    samples := 0;
    var vote := 0;
    var cycles := 0;
    while cycles < Cycles
      invariant cycles <= Cycles
      invariant samples == 40 * cycles
      invariant vote == StrappedVotes(input, samples)
    {
      var count := 0;
      while count < ReadsPerLevel
        invariant count <= ReadsPerLevel
        invariant samples == 40 * cycles + count
        invariant vote == StrappedVotes(input, samples)
      {
        DrivenAt(cycles, count);
        if input[samples] {
          vote := vote + 1;
        }
        samples := samples + 1;
        count := count + 1;
      }
      count := 0;
      while count < ReadsPerLevel
        invariant count <= ReadsPerLevel
        invariant samples == 40 * cycles + ReadsPerLevel + count
        invariant vote == StrappedVotes(input, samples)
      {
        DrivenAt(cycles, ReadsPerLevel + count);
        if !input[samples] {
          vote := vote + 1;
        }
        samples := samples + 1;
        count := count + 1;
      }
      cycles := cycles + 1;
    }
    strapped := vote * 100 > samples * 90;
  }

  /** The single-pin half of board_test_force_pin: 200 input, counting those
      at the board's forcing level. */
  method TestSinglePin(input: seq<bool>, state: bool) returns (forced: bool, samples: nat)
    requires |input| == SingleSamples
    ensures samples == SingleSamples
    ensures forced == PinForced(input, state)
  {
    var vote := 0;
    samples := 0;
    while samples < SingleSamples
      invariant samples <= SingleSamples
      invariant vote == MatchingVotes(input, state, samples)
    {
      if input[samples] == state {
        vote := vote + 1;
      }
      samples := samples + 1;
    }
    forced := vote * 100 > samples * 90;
  }

  /** Which force-bootloader hardware the board defines: none, an output pin
      strapped to an input pin, or a single pin pulled to `state`. The two
      variants exclude each other, since both blocks of board_test_force_pin
      declare the same counters. */
  datatype ForcePinMode = NoForcePin | StrappedPair | SinglePin(state: bool)

  /** The number of pin reads the test takes in each mode. */
  function ForcePinSamples(mode: ForcePinMode): nat {
    match mode
    case NoForcePin => 0
    case StrappedPair => StrappedSamples
    case SinglePin(_) => SingleSamples
  }

  /** The force-bootloader hardware is asserted. */
  predicate ForcePinAsserted(mode: ForcePinMode, input: seq<bool>)
    requires |input| == ForcePinSamples(mode)
  {
    match mode
    case NoForcePin => false
    case StrappedPair => PinsStrapped(input)
    case SinglePin(state) => PinForced(input, state)
  }

  /** board_test_force_pin: the test the board's mode compiles in, or false
      when it has none. */
  method TestForcePin(mode: ForcePinMode, input: seq<bool>) returns (forced: bool)
    requires |input| == ForcePinSamples(mode)
    ensures forced == ForcePinAsserted(mode, input)
    ensures mode.NoForcePin? ==> !forced
  {
    match mode
    case NoForcePin =>
      forced := false;
    case StrappedPair =>
      var samples;
      forced, samples := TestStrappedPins(input);
    case SinglePin(state) =>
      var samples;
      forced, samples := TestSinglePin(input, state);
  }

  /** How many of the first k reads fall in the high half of their cycle. */
  function HighReads(k: nat): nat {
    20 * (k / 40) + (if k % 40 < 20 then k % 40 else 20)
  }

  /** The count of high-half reads grows by one exactly on a high-half read. */
  lemma HighReadsStep(k: nat)
    ensures HighReads(k + 1) == HighReads(k) + (if DrivenHigh(k) then 1 else 0)
  {
    var c, i := k / 40, k % 40;
    assert k == 40 * c + i;
    if i < 39 {
      assert (k + 1) / 40 == c && (k + 1) % 40 == i + 1;
    } else {
      assert (k + 1) / 40 == c + 1 && (k + 1) % 40 == 0;
    }
  }

  /** An input pin that does not follow the output (stuck at, or coupled
      to, a constant level) votes with the driven level only as often
      as that level happens to match. */
  lemma {:induction false} ConstantInputVotes(input: seq<bool>, b: bool, k: nat)
    requires k <= |input|
    requires forall j | 0 <= j < k :: input[j] == b
    ensures StrappedVotes(input, k) == if b then HighReads(k) else k - HighReads(k)
  {
    if k > 0 {
      ConstantInputVotes(input, b, k - 1);
      HighReadsStep(k - 1);
    }
  }

  /** A constant input is rejected: it agrees with the driven level on only
      half of the 400 input. */
  lemma ConstantInputRejected(input: seq<bool>, b: bool)
    requires |input| == StrappedSamples
    requires forall j | 0 <= j < |input| :: input[j] == b
    ensures !PinsStrapped(input)
  {
    ConstantInputVotes(input, b, StrappedSamples);
    assert HighReads(400) == 200;
  }

  /** Pins that follow each other on every read are detected. */
  lemma {:induction false} FollowingInputVotes(input: seq<bool>, k: nat)
    requires k <= |input|
    requires forall j | 0 <= j < k :: input[j] == DrivenHigh(j)
    ensures StrappedVotes(input, k) == k
  {
    if k > 0 {
      FollowingInputVotes(input, k - 1);
    }
  }

  /** The USART probe samples 3 frames of 10 bits at 2 samples per bit. */
  const BreakWindow: nat := 60
  /** A break is 9 bit times low: 18 consecutive low samples. */
  const BreakRun: nat := 18

  /** The number of low samples at the end of s. */
  function TrailingLows(s: seq<bool>): (n: nat)
    ensures n <= |s|
  {
    if s == [] || s[|s| - 1] then 0 else TrailingLows(s[..|s| - 1]) + 1
  }

  /** The count of trailing lows reaches n exactly when the last n samples
      are all low. */
  lemma {:induction false} TrailingLowsIff(s: seq<bool>, n: nat)
    requires n <= |s|
    ensures TrailingLows(s) >= n <==> forall k | |s| - n <= k < |s| :: !s[k]
  {
    if n > 0 {
      TrailingLowsIff(s[..|s| - 1], n - 1);
    }
  }

  /** Samples j-18 .. j-1 of the line are all low. */
  predicate LowRunEndsAt(line: seq<bool>, j: nat)
    requires BreakRun <= j <= |line|
  {
    forall k | j - BreakRun <= k < j :: !line[k]
  }

  /** Somewhere in the first 60 samples the line stays low for 18. */
  predicate BreakSeen(line: seq<bool>)
    requires BreakWindow <= |line|
  {
    exists j | BreakRun <= j <= BreakWindow :: LowRunEndsAt(line, j)
  }

  /** board_test_usart_receiving_break, one line sample per timer tick:
      counts consecutive lows, resets on a high, and stops as soon as the
      count reaches 18 or 60 samples have been taken. `consumed` is the
      number of samples taken. */
  method TestReceivingBreak(line: seq<bool>) returns (brk: bool, consumed: nat)
    requires BreakWindow <= |line|
    ensures brk <==> BreakSeen(line)
    ensures consumed <= BreakWindow
    ensures brk ==> BreakRun <= consumed && LowRunEndsAt(line, consumed)
    ensures forall j | BreakRun <= j < consumed :: !LowRunEndsAt(line, j)
    ensures !brk ==> consumed == BreakWindow
  {
    var low := 0;
    var cnt := 0;
    while cnt < BreakWindow
      invariant cnt <= BreakWindow
      invariant low == TrailingLows(line[..cnt]) && low < BreakRun
      invariant forall j | BreakRun <= j <= cnt :: !LowRunEndsAt(line, j)
    {
      assert line[..cnt + 1][..cnt] == line[..cnt];
      if !line[cnt] {
        low := low + 1;
      } else {
        low := 0;
      }
      cnt := cnt + 1;
      if BreakRun <= cnt {
        TrailingLowsIff(line[..cnt], BreakRun);
        assert LowRunEndsAt(line, cnt) <==> low >= BreakRun;
      }
      if low >= BreakRun {
        break;
      }
    }
    brk := low >= BreakRun;
    consumed := cnt;
    if brk {
      assert LowRunEndsAt(line, consumed);
    }
  }
}
