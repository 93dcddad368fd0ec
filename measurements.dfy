/**
 * Decoding of the measurement block: the window read from address 40070 is
 * walked register by register, and each register is reported according to
 * its absolute address.
 */
module Measurements {
  import opened Wrappers
  import opened Registers

  /** Address and size of the measurement read (40070 to 40090). */
  const MEASUREMENT_START: int := 40070
  const MEASUREMENT_COUNT: nat := 21

  const POWER_ADDRESS: int := 40080
  const VOLTAGE_ADDRESS: int := 40086
  const FREQUENCY_ADDRESS: int := 40088

  /** The other addresses whose raw value is reported. */
  const OTHER_ADDRESSES: set<int> := {40070, 40071, 40081, 40082, 40084, 40091, 40092, 40096}

  /** What a reported register stands for. */
  datatype Kind = Power | Voltage | Frequency | Register

  /** One reported register: its address, what it stands for and its raw value. */
  datatype Entry = Entry(address: int, kind: Kind, raw: Word)

  /** A value scaled by 1/100, kept as its whole part and its hundredths. */
  datatype Centi = Centi(whole: nat, hundredths: nat)

  /** A raw register divided by 100, kept exactly as whole part and hundredths. */
  function Scaled(raw: Word): (c: Centi)
    ensures c.hundredths < 100
    ensures c.whole * 100 + c.hundredths == raw as int
  {
    Centi(raw as int / 100, raw as int % 100)
  }

  /** The if/elif chain on the address: what the register at `address` is reported as, if at all. */
  function Classify(address: int): (k: Option<Kind>)
    ensures k.Some? ==>
      address in OTHER_ADDRESSES || address in {POWER_ADDRESS, VOLTAGE_ADDRESS, FREQUENCY_ADDRESS}
  {
    if address == POWER_ADDRESS then Some(Power)
    else if address == VOLTAGE_ADDRESS then Some(Voltage)
    else if address == FREQUENCY_ADDRESS then Some(Frequency)
    else if address in OTHER_ADDRESSES then Some(Register)
    else None
  }

  /**
   * The four branches of the chain are disjoint, so their order does not
   * matter: an address is power, voltage, frequency or another reported
   * register exactly when it is that address or in that list, and otherwise
   * it is not reported.
   */
  lemma ClassifyExclusive(address: int)
    ensures Classify(address) == Some(Power) <==> address == POWER_ADDRESS
    ensures Classify(address) == Some(Voltage) <==> address == VOLTAGE_ADDRESS
    ensures Classify(address) == Some(Frequency) <==> address == FREQUENCY_ADDRESS
    ensures Classify(address) == Some(Register) <==> address in OTHER_ADDRESSES
    ensures Classify(address) == None <==>
      address !in OTHER_ADDRESSES && address != POWER_ADDRESS
      && address != VOLTAGE_ADDRESS && address != FREQUENCY_ADDRESS
  {
  }

  /** What one register at `address` adds to the report. */
  function Report(address: int, raw: Word): (r: seq<Entry>)
    ensures |r| <= 1
    ensures |r| == 1 <==> Classify(address).Some?
    ensures |r| == 1 ==> r[0].address == address && r[0].raw == raw && Some(r[0].kind) == Classify(address)
  {
    match Classify(address)
    case None => []
    case Some(k) => [Entry(address, k, raw)]
  }

  /** The report for the first `i` registers of the window whose first register is at `start`. */
  function LogPrefix(start: int, regs: seq<Word>, i: nat): (log: seq<Entry>)
    requires i <= |regs|
    ensures |log| <= i
  {
    if i == 0 then [] else LogPrefix(start, regs, i - 1) + Report(start + i - 1, regs[i - 1])
  }

  /** The report for the whole window `regs` whose first register is at `start`. */
  function MeasurementLog(start: int, regs: seq<Word>): (log: seq<Entry>)
    ensures |log| <= |regs|
  {
    LogPrefix(start, regs, |regs|)
  }

  /**
   * The report of the first `i` registers: each entry comes from one of
   * them, at its absolute address, with the kind its address has and its
   * raw value, and entries are in strictly increasing address order.
   */
  lemma {:induction false} LogPrefixFromWindow(start: int, regs: seq<Word>, i: nat)
    requires i <= |regs|
    ensures var log := LogPrefix(start, regs, i);
      && |log| <= i
      && (forall j :: 0 <= j < |log| ==>
            && start <= log[j].address < start + i
            && Classify(log[j].address) == Some(log[j].kind)
            && log[j].raw == regs[log[j].address - start])
      && (forall a, b :: 0 <= a < b < |log| ==> log[a].address < log[b].address)
  {
    if i > 0 {
      LogPrefixFromWindow(start, regs, i - 1);
    }
  }

  /**
   * Every entry of the report comes from a register of the window, at its
   * absolute address `start + i`, with the kind its address has and its raw
   * value, and entries are in strictly increasing address order, so no
   * register is reported twice.
   */
  lemma LogFromWindow(start: int, regs: seq<Word>)
    ensures var log := MeasurementLog(start, regs);
      && |log| <= |regs|
      && (forall j :: 0 <= j < |log| ==>
            && start <= log[j].address < start + |regs|
            && Classify(log[j].address) == Some(log[j].kind)
            && log[j].raw == regs[log[j].address - start])
      && (forall a, b :: 0 <= a < b < |log| ==> log[a].address < log[b].address)
  {
    LogPrefixFromWindow(start, regs, |regs|);
  }

  /** Register `n` is in the report of the first `i` registers when it is one of them and its address is reported. */
  lemma {:induction false} LogPrefixCovers(start: int, regs: seq<Word>, i: nat, n: nat)
    requires n < i <= |regs| && Classify(start + n).Some?
    ensures Entry(start + n, Classify(start + n).value, regs[n]) in LogPrefix(start, regs, i)
  {
    if n < i - 1 {
      LogPrefixCovers(start, regs, i - 1, n);
    }
  }

  /** Every register of the window whose address is reported shows up in the report. */
  lemma LogCoversWindow(start: int, regs: seq<Word>, n: nat)
    requires n < |regs| && Classify(start + n).Some?
    ensures Entry(start + n, Classify(start + n).value, regs[n]) in MeasurementLog(start, regs)
  {
    LogPrefixCovers(start, regs, |regs|, n);
  }

  /** Registers whose addresses are not reported add nothing to the report. */
  lemma {:induction false} QuietRun(start: int, regs: seq<Word>, a: nat, b: nat)
    requires a <= b <= |regs|
    requires forall address :: start + a <= address < start + b ==> Classify(address).None?
    ensures LogPrefix(start, regs, b) == LogPrefix(start, regs, a)
    decreases b - a
  {
    if a < b {
      assert Classify(start + b - 1).None?;
      QuietRun(start, regs, a, b - 1);
    }
  }

  /** The report of the first 10 registers of a full measurement response (40070 to 40079). */
  lemma FullWindowPrefix10(regs: seq<Word>)
    requires |regs| == MEASUREMENT_COUNT
    ensures LogPrefix(MEASUREMENT_START, regs, 10) == [Entry(40070, Register, regs[0]), Entry(40071, Register, regs[1])]
  {
    assert LogPrefix(MEASUREMENT_START, regs, 1) == [Entry(40070, Register, regs[0])];
    QuietRun(MEASUREMENT_START, regs, 2, 10);
  }

  /** The report of the first 13 registers of a full measurement response (40070 to 40082). */
  lemma FullWindowPrefix13(regs: seq<Word>)
    requires |regs| == MEASUREMENT_COUNT
    ensures LogPrefix(MEASUREMENT_START, regs, 13) == [
      Entry(40070, Register, regs[0]), Entry(40071, Register, regs[1]),
      Entry(40080, Power, regs[10]), Entry(40081, Register, regs[11]),
      Entry(40082, Register, regs[12])]
  {
    FullWindowPrefix10(regs);
    assert LogPrefix(MEASUREMENT_START, regs, 11) == [
      Entry(40070, Register, regs[0]), Entry(40071, Register, regs[1]),
      Entry(40080, Power, regs[10])];
    assert LogPrefix(MEASUREMENT_START, regs, 12) == [
      Entry(40070, Register, regs[0]), Entry(40071, Register, regs[1]),
      Entry(40080, Power, regs[10]), Entry(40081, Register, regs[11])];
  }

  /** The report of the first 16 registers of a full measurement response (40070 to 40085). */
  lemma FullWindowPrefix16(regs: seq<Word>)
    requires |regs| == MEASUREMENT_COUNT
    ensures LogPrefix(MEASUREMENT_START, regs, 16) == [
      Entry(40070, Register, regs[0]), Entry(40071, Register, regs[1]),
      Entry(40080, Power, regs[10]), Entry(40081, Register, regs[11]),
      Entry(40082, Register, regs[12]), Entry(40084, Register, regs[14])]
  {
    FullWindowPrefix13(regs);
    assert LogPrefix(MEASUREMENT_START, regs, 14) == [
      Entry(40070, Register, regs[0]), Entry(40071, Register, regs[1]),
      Entry(40080, Power, regs[10]), Entry(40081, Register, regs[11]),
      Entry(40082, Register, regs[12])];
    assert LogPrefix(MEASUREMENT_START, regs, 15) == [
      Entry(40070, Register, regs[0]), Entry(40071, Register, regs[1]),
      Entry(40080, Power, regs[10]), Entry(40081, Register, regs[11]),
      Entry(40082, Register, regs[12]), Entry(40084, Register, regs[14])];
  }

  /**
   * A full response of the measurement read reports exactly eight
   * registers, in address order: 40070 and 40071, power at 40080, 40081,
   * 40082 and 40084, voltage at 40086 and frequency at 40088.
   */
  lemma FullWindowLog(regs: seq<Word>)
    requires |regs| == MEASUREMENT_COUNT
    ensures MeasurementLog(MEASUREMENT_START, regs) == [
      Entry(40070, Register, regs[0]), Entry(40071, Register, regs[1]),
      Entry(40080, Power, regs[10]), Entry(40081, Register, regs[11]),
      Entry(40082, Register, regs[12]), Entry(40084, Register, regs[14]),
      Entry(40086, Voltage, regs[16]), Entry(40088, Frequency, regs[18])]
  {
    FullWindowPrefix16(regs);
    assert LogPrefix(MEASUREMENT_START, regs, 17) == [
      Entry(40070, Register, regs[0]), Entry(40071, Register, regs[1]),
      Entry(40080, Power, regs[10]), Entry(40081, Register, regs[11]),
      Entry(40082, Register, regs[12]), Entry(40084, Register, regs[14]),
      Entry(40086, Voltage, regs[16])];
    assert LogPrefix(MEASUREMENT_START, regs, 18) == [
      Entry(40070, Register, regs[0]), Entry(40071, Register, regs[1]),
      Entry(40080, Power, regs[10]), Entry(40081, Register, regs[11]),
      Entry(40082, Register, regs[12]), Entry(40084, Register, regs[14]),
      Entry(40086, Voltage, regs[16])];
    assert LogPrefix(MEASUREMENT_START, regs, 19) == [
      Entry(40070, Register, regs[0]), Entry(40071, Register, regs[1]),
      Entry(40080, Power, regs[10]), Entry(40081, Register, regs[11]),
      Entry(40082, Register, regs[12]), Entry(40084, Register, regs[14]),
      Entry(40086, Voltage, regs[16]), Entry(40088, Frequency, regs[18])];
    QuietRun(MEASUREMENT_START, regs, 19, 21);
  }

  /**
   * The full 21-register response from 40070 covers 40070 to 40090, so
   * 40091, 40092 and 40096 of the list are never reached.
   */
  lemma ListedAddressesUnreached(regs: seq<Word>)
    requires |regs| <= MEASUREMENT_COUNT
    ensures forall j :: 0 <= j < |MeasurementLog(MEASUREMENT_START, regs)| ==>
      MeasurementLog(MEASUREMENT_START, regs)[j].address !in {40091, 40092, 40096}
  {
    LogFromWindow(MEASUREMENT_START, regs);
  }

  /**
   * The decoding loop of `read_measurements`: one pass over the window at
   * address `start + i`, appending an entry per reported register and
   * keeping the last scaled voltage and frequency.
   */
  method DecodeMeasurements(start: int, regs: seq<Word>)
      returns (log: seq<Entry>, voltage: Option<Centi>, frequency: Option<Centi>)
    ensures log == MeasurementLog(start, regs)
    ensures voltage ==
      if start <= VOLTAGE_ADDRESS < start + |regs| then Some(Scaled(regs[VOLTAGE_ADDRESS - start])) else None
    ensures frequency ==
      if start <= FREQUENCY_ADDRESS < start + |regs| then Some(Scaled(regs[FREQUENCY_ADDRESS - start])) else None
  {
    log, voltage, frequency := [], None, None;
    for i := 0 to |regs|
      invariant log == LogPrefix(start, regs, i)
      invariant voltage ==
        if start <= VOLTAGE_ADDRESS < start + i then Some(Scaled(regs[VOLTAGE_ADDRESS - start])) else None
      invariant frequency ==
        if start <= FREQUENCY_ADDRESS < start + i then Some(Scaled(regs[FREQUENCY_ADDRESS - start])) else None
    {
      var address, val := start + i, regs[i];
      if address == POWER_ADDRESS {
        log := log + [Entry(address, Power, val)];
      } else if address == VOLTAGE_ADDRESS {
        voltage := Some(Scaled(val));
        log := log + [Entry(address, Voltage, val)];
      } else if address == FREQUENCY_ADDRESS {
        frequency := Some(Scaled(val));
        log := log + [Entry(address, Frequency, val)];
      } else if address in OTHER_ADDRESSES {
        log := log + [Entry(address, Register, val)];
      }
    }
  }

  /**
   * `read_measurements` after the transport call: true exactly when the
   * response is not an error (decoding cannot fail), with the report of the
   * window read from 40070.
   */
  method ReadMeasurements(response: Response) returns (ok: bool, log: seq<Entry>)
    ensures ok <==> response.Reply?
    ensures log == if response.Reply? then MeasurementLog(MEASUREMENT_START, response.registers) else []
  {
    match response
    case ErrorReply =>
      ok, log := false, [];
    case Reply(regs) =>
      var voltage, frequency;
      log, voltage, frequency := DecodeMeasurements(MEASUREMENT_START, regs);
      ok := true;
  }
}
