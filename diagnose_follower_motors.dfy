/**
 * The pure parts of the follower-arm diagnostic script: decoding a Feetech
 * servo's status byte into a message, the motor-ID guard of the interactive
 * session, and the tolerance behind the "did not reach target" warning.
 * The motor bus, the prompts and the printing are outside the model.
 */
module DiagnoseFollowerMotors {
  import opened Wrappers

  // ---------------------------------------------------------------------------
  // Bits
  // ---------------------------------------------------------------------------

  function Pow2(i: nat): (p: nat)
    ensures p >= 1
  {
    if i == 0 then 1 else 2 * Pow2(i - 1)
  }

  /**
   * Bit `i` of `s` as Python's `s & (1 << i)` sees it. Python integers are
   * two's complement with infinite sign extension, so the bit is the parity
   * of `floor(s / 2^i)`; Dafny's division by a positive divisor floors, and its
   * remainder is never negative, so this also holds for negative `s`.
   */
  predicate Bit(s: int, i: nat) {
    (s / Pow2(i)) % 2 == 1
  }

  /** The names of status bits 0 to 6, in bit order; bit 7 has no name. */
  const ErrorFlags: seq<string> := [
    "Overload Error",
    "Overvoltage Error",
    "Overtemperature Error",
    "Movement/Angle Limit Error/Stall",
    "Access Error/Invalid Page",
    "Instruction Error",
    "Driver Fault"
  ]

  const FlagCount: nat := 7

  lemma FlagsDistinct()
    ensures |ErrorFlags| == FlagCount
    ensures forall i, j :: 0 <= i < j < |ErrorFlags| ==> ErrorFlags[i] != ErrorFlags[j]
  {
  }

  /** The names of the set bits among bits 0 to k-1, lowest bit first. */
  function FlagsBelow(s: int, k: nat): (names: seq<string>)
    requires k <= FlagCount
    ensures |names| <= k
  {
    if k == 0 then []
    else FlagsBelow(s, k - 1) + (if Bit(s, k - 1) then [ErrorFlags[k - 1]] else [])
  }

  /** The error list the decoder builds for a status value. */
  function ErrorNames(s: int): seq<string> {
    FlagsBelow(s, FlagCount)
  }

  /** The indices of the set bits among bits 0 to k-1, in increasing order. */
  ghost function SetBitsBelow(s: int, k: nat): seq<nat> {
    if k == 0 then [] else SetBitsBelow(s, k - 1) + (if Bit(s, k - 1) then [k - 1] else [])
  }

  ghost predicate Increasing(xs: seq<nat>) {
    forall p, q :: 0 <= p < q < |xs| ==> xs[p] < xs[q]
  }

  /** The set-bit indices are exactly the set bits below `k`, each once and in increasing order. */
  lemma {:induction false} SetBitsBelowSpec(s: int, k: nat)
    ensures Increasing(SetBitsBelow(s, k))
    ensures forall i: nat :: i in SetBitsBelow(s, k) <==> i < k && Bit(s, i)
  {
    if k > 0 {
      SetBitsBelowSpec(s, k - 1);
      var prev := SetBitsBelow(s, k - 1);
      assert forall p :: 0 <= p < |prev| ==> prev[p] < k - 1 by {
        forall p | 0 <= p < |prev| ensures prev[p] < k - 1 {
          assert prev[p] in prev;
        }
      }
    }
  }

  /**
   * The error list names the set bits below `k` in increasing bit order:
   * its p-th entry is the name of the p-th set bit.
   */
  lemma {:induction false} FlagsBelowAreSetBits(s: int, k: nat)
    requires k <= FlagCount
    ensures |FlagsBelow(s, k)| == |SetBitsBelow(s, k)|
    ensures forall p :: 0 <= p < |FlagsBelow(s, k)| ==> SetBitsBelow(s, k)[p] < FlagCount && FlagsBelow(s, k)[p] == ErrorFlags[SetBitsBelow(s, k)[p]]
  {
    if k > 0 {
      FlagsBelowAreSetBits(s, k - 1);
    }
  }

  /** Bit `i` (of 0 to 6) is set exactly when its name is in the error list of `s`. */
  lemma {:induction false} FlagNamedIffBitSet(s: int, i: nat, k: nat)
    requires i < k <= FlagCount
    ensures ErrorFlags[i] in FlagsBelow(s, k) <==> Bit(s, i)
  {
    FlagsDistinct();
    if i < k - 1 {
      FlagNamedIffBitSet(s, i, k - 1);
    } else {
      FlagsOnlyBelow(s, i, i);
    }
  }

  /** No bit at or above `k` contributes a name to the list built from bits below `k`. */
  lemma {:induction false} FlagsOnlyBelow(s: int, k: nat, j: nat)
    requires k <= j < FlagCount
    ensures ErrorFlags[j] !in FlagsBelow(s, k)
  {
    FlagsDistinct();
    if k > 0 {
      FlagsOnlyBelow(s, k - 1, j);
    }
  }

  /** The decoder's list: a name appears exactly when its bit is set, and names appear in bit order. */
  lemma ErrorNamesSpec(s: int)
    ensures forall i :: 0 <= i < FlagCount ==> (ErrorFlags[i] in ErrorNames(s) <==> Bit(s, i))
    ensures Increasing(SetBitsBelow(s, FlagCount))
    ensures |ErrorNames(s)| == |SetBitsBelow(s, FlagCount)|
    ensures forall p :: 0 <= p < |ErrorNames(s)| ==> SetBitsBelow(s, FlagCount)[p] < FlagCount && ErrorNames(s)[p] == ErrorFlags[SetBitsBelow(s, FlagCount)[p]]
  {
    forall i | 0 <= i < FlagCount
      ensures ErrorFlags[i] in ErrorNames(s) <==> Bit(s, i)
    {
      FlagNamedIffBitSet(s, i, FlagCount);
    }
    SetBitsBelowSpec(s, FlagCount);
    FlagsBelowAreSetBits(s, FlagCount);
  }

  /** The error list is empty exactly when none of bits 0 to 6 is set. */
  lemma {:induction false} NoErrorsIffNoFlags(s: int, k: nat)
    requires k <= FlagCount
    ensures FlagsBelow(s, k) == [] <==> forall i :: 0 <= i < k ==> !Bit(s, i)
  {
    if k > 0 {
      NoErrorsIffNoFlags(s, k - 1);
    }
  }

  // ---------------------------------------------------------------------------
  // Formatting integers
  // ---------------------------------------------------------------------------

  function DigitChar(d: nat): (c: char)
    requires d < 10
    ensures '0' <= c <= '9'
  {
    "0123456789"[d]
  }

  function DigitValue(c: char): nat {
    if '0' <= c <= '9' then (c - '0') as nat else 0
  }

  /** Euclidean division by a base of at least 2, as the digit recursion uses it. */
  lemma DivStep(n: nat, base: nat)
    requires 2 <= base && n >= base
    ensures 1 <= n / base < n
    ensures n % base < base
    ensures n == n / base * base + n % base
  {
  }

  /** The digits of `n` in `base`, most significant first, with no leading zero. */
  function Digits(n: nat, base: nat): (ds: string)
    requires 2 <= base <= 10
    decreases n
  {
    if n < base then [DigitChar(n)]
    else
      DivStep(n, base);
      Digits(n / base, base) + [DigitChar(n % base)]
  }

  /** The number a digit string denotes in `base`: the reference reading that formatting must agree with. */
  function DigitsValue(ds: string, base: nat): nat {
    if |ds| == 0 then 0 else DigitsValue(ds[..|ds| - 1], base) * base + DigitValue(ds[|ds| - 1])
  }

  /** The digits of `n` are between one and `w` characters long when `n < base^w`, and each is a digit below `base`. */
  lemma {:induction false} DigitsShape(n: nat, base: nat, w: nat)
    requires 2 <= base <= 10 && 1 <= w && n < Power(base, w)
    ensures 1 <= |Digits(n, base)| <= w
    ensures forall c :: c in Digits(n, base) ==> '0' <= c <= '9' && DigitValue(c) < base
    decreases n
  {
    if n >= base {
      DivStep(n, base);
      var q := n / base;
      assert Power(base, w) == Power(base, w - 1) * base;
      assert q < Power(base, w - 1) by {
        if q >= Power(base, w - 1) {
          MulMonotone(Power(base, w - 1), q, base);
        }
      }
      assert w - 1 != 0;
      DigitsShape(q, base, w - 1);
      assert DigitValue(DigitChar(n % base)) == n % base;
    }
  }

  /** Reading the digits of `n` back gives `n`. */
  lemma {:induction false} DigitsRoundTrip(n: nat, base: nat)
    requires 2 <= base <= 10
    ensures DigitsValue(Digits(n, base), base) == n
    decreases n
  {
    if n >= base {
      DivStep(n, base);
      DigitsRoundTrip(n / base, base);
      var ds := Digits(n, base);
      assert ds[..|ds| - 1] == Digits(n / base, base);
      assert DigitValue(DigitChar(n % base)) == n % base;
    } else {
      assert DigitValue(DigitChar(n)) == n;
    }
  }

  /** Leading zeros do not change the number a digit string denotes. */
  lemma {:induction false} LeadingZeroValue(ds: string, base: nat)
    ensures DigitsValue(['0'] + ds, base) == DigitsValue(ds, base)
    decreases |ds|
  {
    if |ds| > 0 {
      assert (['0'] + ds)[..|ds|] == ['0'] + ds[..|ds| - 1];
      LeadingZeroValue(ds[..|ds| - 1], base);
    }
  }

  function ZeroDigits(n: nat): (z: string)
    ensures |z| == n && forall c :: c in z ==> c == '0'
  {
    if n == 0 then [] else ['0'] + ZeroDigits(n - 1)
  }

  lemma {:induction false} ZerosValue(n: nat, ds: string, base: nat)
    ensures DigitsValue(ZeroDigits(n) + ds, base) == DigitsValue(ds, base)
  {
    if n > 0 {
      var rest := ZeroDigits(n - 1) + ds;
      assert ZeroDigits(n) + ds == ['0'] + rest;
      LeadingZeroValue(rest, base);
      ZerosValue(n - 1, ds, base);
    } else {
      assert ZeroDigits(n) + ds == ds;
    }
  }

  /** Python's `str` of an integer: a minus sign for negatives, then the decimal digits. */
  function Decimal(s: int): string {
    if s < 0 then "-" + Digits(-s, 10) else Digits(s, 10)
  }

  /**
   * Python's `format(s, '08b')`: the sign, if any, then the binary digits of
   * `|s|`, padded with zeros after the sign so that the whole is at least 8
   * characters wide.
   */
  function Binary8(s: int): string {
    var sign := if s < 0 then "-" else "";
    var ds := Digits(if s < 0 then -s else s, 2);
    var width := 8 - |sign|;
    sign + (if |ds| < width then ZeroDigits(width - |ds|) else []) + ds
  }

  /** A status that fits in a byte formats as exactly eight binary digits that read back as the status. */
  lemma Binary8OfByte(s: int)
    requires 0 <= s < 256
    ensures |Binary8(s)| == 8
    ensures forall c :: c in Binary8(s) ==> c == '0' || c == '1'
    ensures DigitsValue(Binary8(s), 2) == s
  {
    var ds := Digits(s, 2);
    assert Power(2, 8) == 256;
    DigitsShape(s, 2, 8);
    DigitsRoundTrip(s, 2);
    ZerosValue(8 - |ds|, ds, 2);
    var z := ZeroDigits(8 - |ds|);
    PaddedBinary(s);
    forall c | c in ds
      ensures c == '0' || c == '1'
    {
      BinaryDigitChar(c);
    }
  }

  /** A non-negative status of at most eight binary digits is printed as its digits behind the padding zeros. */
  lemma PaddedBinary(s: nat)
    requires |Digits(s, 2)| <= 8
    ensures Binary8(s) == ZeroDigits(8 - |Digits(s, 2)|) + Digits(s, 2)
  {
    var ds := Digits(s, 2);
    if |ds| == 8 {
      assert ZeroDigits(0) == [];
    }
  }

  lemma BinaryDigitChar(c: char)
    requires '0' <= c <= '9' && DigitValue(c) < 2
    ensures c == '0' || c == '1'
  {
  }

  function Power(base: nat, w: nat): nat {
    if w == 0 then 1 else Power(base, w - 1) * base
  }

  lemma MulMonotone(a: nat, b: nat, c: nat)
    requires a <= b
    ensures a * c <= b * c
  {
  }

  // ---------------------------------------------------------------------------
  // The status message
  // ---------------------------------------------------------------------------

  function Join(xs: seq<string>, sep: string): string {
    if |xs| == 0 then "" else if |xs| == 1 then xs[0] else xs[0] + sep + Join(xs[1..], sep)
  }

  /** Appending a name to a non-empty list adds the separator and the name. */
  lemma {:induction false} JoinAppend(xs: seq<string>, x: string, sep: string)
    requires |xs| > 0
    ensures Join(xs + [x], sep) == Join(xs, sep) + sep + x
    decreases |xs|
  {
    if |xs| > 1 {
      assert (xs + [x])[1..] == xs[1..] + [x];
      JoinAppend(xs[1..], x, sep);
    }
  }

  const NotAvailable := "Status not available"
  const AllClear := "OK (0)"
  const ErrorsPrefix := "Error(s) detected: "

  function UnknownMessage(s: int): string {
    "Unknown status or flags: " + Decimal(s) + " (binary: " + Binary8(s) + ")"
  }

  function ErrorsMessage(names: seq<string>, s: int): string {
    ErrorsPrefix + Join(names, ", ") + " (Raw: " + Decimal(s) + ", Binary: " + Binary8(s) + ")"
  }

  /** The message `interpret_feetech_status` returns; `None` is a status that could not be read. */
  function StatusMessage(status: Option<int>): string {
    match status
    case None => NotAvailable
    case Some(s) =>
      var errors := ErrorNames(s);
      if errors == [] && s == 0 then AllClear
      else if errors == [] then UnknownMessage(s)
      else ErrorsMessage(errors, s)
  }

  /** The decoder as the script writes it: seven guarded appends, then the choice of summary. */
  method InterpretFeetechStatus(status: Option<int>) returns (msg: string)
    ensures msg == StatusMessage(status)
  {
    if status.None? {
      return NotAvailable;
    }
    var s := status.value;
    var errors: seq<string> := [];
    if Bit(s, 0) { errors := errors + ["Overload Error"]; }
    assert errors == FlagsBelow(s, 1);
    if Bit(s, 1) { errors := errors + ["Overvoltage Error"]; }
    assert errors == FlagsBelow(s, 2);
    if Bit(s, 2) { errors := errors + ["Overtemperature Error"]; }
    assert errors == FlagsBelow(s, 3);
    if Bit(s, 3) { errors := errors + ["Movement/Angle Limit Error/Stall"]; }
    assert errors == FlagsBelow(s, 4);
    if Bit(s, 4) { errors := errors + ["Access Error/Invalid Page"]; }
    assert errors == FlagsBelow(s, 5);
    if Bit(s, 5) { errors := errors + ["Instruction Error"]; }
    assert errors == FlagsBelow(s, 6);
    if Bit(s, 6) { errors := errors + ["Driver Fault"]; }
    assert errors == FlagsBelow(s, 7) == ErrorNames(s);

    if errors == [] && s == 0 {
      msg := AllClear;
    } else if errors == [] && s != 0 {
      msg := UnknownMessage(s);
    } else {
      msg := ErrorsMessage(errors, s);
    }
  }

  /** An unreadable status is reported as not available. */
  lemma StatusMissing()
    ensures StatusMessage(None) == "Status not available"
  {
  }

  /** Status 0 is the all-clear message. */
  lemma StatusZero()
    ensures StatusMessage(Some(0)) == "OK (0)"
  {
  }

  /**
   * The three outcomes for a read status: all clear exactly for 0, the
   * "unknown" message exactly for a non-zero status with bits 0 to 6 clear,
   * and the error list otherwise.
   */
  lemma StatusCases(s: int)
    ensures StatusMessage(Some(s)) == AllClear <==> s == 0
    ensures (s != 0 && forall i :: 0 <= i < FlagCount ==> !Bit(s, i)) ==> StatusMessage(Some(s)) == UnknownMessage(s)
    ensures (exists i :: 0 <= i < FlagCount && Bit(s, i)) ==> StatusMessage(Some(s)) == ErrorsMessage(ErrorNames(s), s) && ErrorNames(s) != []
  {
    NoErrorsIffNoFlags(s, FlagCount);
    if s != 0 {
      MessagesDiffer(s);
    }
  }

  lemma MessagesDiffer(s: int)
    ensures UnknownMessage(s) != AllClear
    ensures ErrorsMessage(ErrorNames(s), s) != AllClear
  {
  }

  /** Bit 7 alone has no name: 0x80 is reported as an unknown status, in decimal and in eight binary digits. */
  lemma StatusHighBitOnly()
    ensures StatusMessage(Some(0x80)) == UnknownMessage(0x80)
    ensures Decimal(0x80) == "128" && Binary8(0x80) == "10000000"
  {
    PowersOfTwo();
    assert ErrorNames(0x80) == [] by {
      NoErrorsIffNoFlags(0x80, FlagCount);
    }
    assert Digits(12, 10) == "12";
    assert Digits(2, 2) == "10";
    assert Digits(4, 2) == "100";
    assert Digits(8, 2) == "1000";
    assert Digits(16, 2) == "10000";
    assert Digits(32, 2) == "100000";
    assert Digits(64, 2) == "1000000";
    assert Digits(128, 2) == "10000000";
  }

  lemma PowersOfTwo()
    ensures Pow2(0) == 1 && Pow2(1) == 2 && Pow2(2) == 4 && Pow2(3) == 8
    ensures Pow2(4) == 16 && Pow2(5) == 32 && Pow2(6) == 64
  {
  }

  /** Overload and overtemperature together: both names, in bit order, with the raw value and its binary form. */
  lemma StatusOverloadAndHeat()
    ensures ErrorNames(5) == [ErrorFlags[0], ErrorFlags[2]]
    ensures StatusMessage(Some(5)) == ErrorsMessage(ErrorNames(5), 5)
    ensures Join(ErrorNames(5), ", ") == ErrorFlags[0] + ", " + ErrorFlags[2]
    ensures Decimal(5) == "5" && Binary8(5) == "00000101"
  {
    PowersOfTwo();
    assert Bit(5, 0) && !Bit(5, 1) && Bit(5, 2);
    assert !Bit(5, 3) && !Bit(5, 4) && !Bit(5, 5) && !Bit(5, 6);
    assert FlagsBelow(5, 3) == [ErrorFlags[0], ErrorFlags[2]];
    assert ErrorNames(5) == FlagsBelow(5, 3);
    assert Digits(2, 2) == "10";
    assert Digits(5, 2) == "101";
  }

  // ---------------------------------------------------------------------------
  // The interactive session's guards
  // ---------------------------------------------------------------------------

  /** The ID range the session accepts before it talks to a motor. */
  predicate MotorIdValid(id: int) {
    0 < id < 253
  }

  /**
   * One pass of the session's prompts. An `Attempt` whose ID is out of range
   * stands for a single input line: the session asks for no target then, so
   * its `target` is never read.
   */
  datatype Entry =
    | Quit                              // "quit" in any letter case, or an interrupt
    | Attempt(id: int, target: int)     // an integer ID and an integer target
    | Malformed                         // an answer `int` cannot parse

  datatype MoveRequest = MoveRequest(id: int, target: int)

  /** The motor operations a session runs: entries up to the first `Quit`, valid IDs only. */
  function SessionRequests(entries: seq<Entry>): seq<MoveRequest> {
    if |entries| == 0 then []
    else match entries[0]
      case Quit => []
      case Malformed => SessionRequests(entries[1..])
      case Attempt(id, target) =>
        if MotorIdValid(id) then [MoveRequest(id, target)] + SessionRequests(entries[1..])
        else SessionRequests(entries[1..])
  }

  /** The session loop: stops at `Quit`, skips malformed input and IDs outside the range, runs the rest. */
  method InteractiveSession(entries: seq<Entry>) returns (ops: seq<MoveRequest>)
    ensures ops == SessionRequests(entries)
  {
    ops := [];
    var k := 0;
    while k < |entries|
      invariant 0 <= k <= |entries|
      invariant ops + SessionRequests(entries[k..]) == SessionRequests(entries)
    {
      var e := entries[k];
      assert entries[k..][1..] == entries[k + 1..];
      if e.Quit? {
        break;
      }
      if e.Attempt? && MotorIdValid(e.id) {
        ops := ops + [MoveRequest(e.id, e.target)];
      }
      k := k + 1;
    }
    if k == |entries| {
      assert entries[k..] == [];
    }
  }

  /** Every motor operation the session runs has an ID in 1 to 252. */
  lemma {:induction false} SessionIdsValid(entries: seq<Entry>)
    ensures forall r :: r in SessionRequests(entries) ==> 1 <= r.id <= 252
  {
    if |entries| > 0 {
      SessionIdsValid(entries[1..]);
    }
  }

  /** An attempt with an ID outside the range runs nothing: the session goes on as if it had not been entered. */
  lemma RejectedIdRunsNothing(before: seq<Entry>, id: int, target: int, after: seq<Entry>)
    requires !MotorIdValid(id)
    ensures SessionRequests(before + [Attempt(id, target)] + after) == SessionRequests(before + after)
  {
    SkipEntry(before, Attempt(id, target), after);
  }

  /** An accepted attempt runs exactly its own operation at its place in the session. */
  lemma AcceptedIdRunsOnce(id: int, target: int, after: seq<Entry>)
    requires MotorIdValid(id)
    ensures SessionRequests([Attempt(id, target)] + after) == [MoveRequest(id, target)] + SessionRequests(after)
  {
  }

  lemma {:induction false} SkipEntry(before: seq<Entry>, e: Entry, after: seq<Entry>)
    requires e.Malformed? || (e.Attempt? && !MotorIdValid(e.id))
    ensures SessionRequests(before + [e] + after) == SessionRequests(before + after)
    decreases |before|
  {
    if |before| == 0 {
      assert before + [e] + after == [e] + after;
      assert ([e] + after)[1..] == after;
      assert before + after == after;
    } else {
      assert (before + [e] + after)[1..] == before[1..] + [e] + after;
      assert (before + after)[1..] == before[1..] + after;
      SkipEntry(before[1..], e, after);
    }
  }

  /** Nothing typed after `quit` runs. */
  lemma {:induction false} NothingAfterQuit(before: seq<Entry>, after: seq<Entry>)
    ensures SessionRequests(before + [Quit] + after) == SessionRequests(before + [Quit])
    decreases |before|
  {
    if |before| > 0 {
      assert (before + [Quit] + after)[1..] == before[1..] + [Quit] + after;
      assert (before + [Quit])[1..] == before[1..] + [Quit];
      NothingAfterQuit(before[1..], after);
    }
  }

  // ---------------------------------------------------------------------------
  // The target-reached tolerance
  // ---------------------------------------------------------------------------

  /** The script warns that a move fell short when the final position is more than 10 steps from the target. */
  predicate NotReachedWarning(final: int, target: int) {
    (if final >= target then final - target else target - final) > 10
  }

  /** No warning exactly when the final position lies in the closed band of 10 steps around the target. */
  lemma NotReachedIffOutsideBand(final: int, target: int)
    ensures !NotReachedWarning(final, target) <==> target - 10 <= final <= target + 10
    ensures NotReachedWarning(final, target) == NotReachedWarning(target, final)
  {
  }
}
