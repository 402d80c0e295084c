/** The administration client's text helpers and bookkeeping: the
    uptime rendering, the masking of passwords on the command line, the
    -p and -w options, the short names of the relative extended-status
    table and the values remembered between its rows. */
module MysqlAdmin {
  import opened Common

  const MaxMysqlVar: nat := 512
  /** The size of one short-name slot, terminating NUL included. */
  const MaxTruncLength: nat := 3
  /** ~(uint)0 */
  const UintMax: nat := 0xFFFF_FFFF
  const Two64: int := 0x1_0000_0000_0000_0000
  const Two63: int := 0x8000_0000_0000_0000

  type uint64 = x: int | 0 <= x < 0x1_0000_0000_0000_0000

  /* ---------------------------------------------------------------- */
  /* nice_time                                                         */
  /* ---------------------------------------------------------------- */

  /** An uptime split into days, hours, minutes and seconds. */
  datatype Duration = Duration(days: nat, hours: nat, mins: nat, secs: nat)

  /** The split nice_time makes: whole days, then hours, minutes and
      seconds of the rest; it adds up to `sec` and is the only split
      with hours below 24 and minutes and seconds below 60. */
  function Split(sec: nat): (d: Duration)
    ensures d.days * 86400 + d.hours * 3600 + d.mins * 60 + d.secs == sec
    ensures d.hours < 24 && d.mins < 60 && d.secs < 60
  {
    var r := sec % 86400;
    Duration(sec / 86400, r / 3600, r % 3600 / 60, r % 3600 % 60)
  }

  /** Any two splits within those bounds are the same split. */
  lemma SplitUnique(d: Duration, e: Duration)
    requires d.hours < 24 && d.mins < 60 && d.secs < 60
    requires e.hours < 24 && e.mins < 60 && e.secs < 60
    requires d.days * 86400 + d.hours * 3600 + d.mins * 60 + d.secs
          == e.days * 86400 + e.hours * 3600 + e.mins * 60 + e.secs
    ensures d == e
  {
    var x := d.hours * 3600 + d.mins * 60 + d.secs;
    var y := e.hours * 3600 + e.mins * 60 + e.secs;
    assert x < 86400 && y < 86400;
    assert d.days == e.days;
    assert d.hours * 3600 + d.mins * 60 + d.secs == e.hours * 3600 + e.mins * 60 + e.secs;
    assert d.hours == e.hours;
  }

  /** A count and its unit, the unit in the plural above 1. */
  function Counted(n: nat, one: string, many: string): string
  {
    Decimal(n) + (if n > 1 then many else one)
  }

  /** The text of a split: days, hours and minutes only when not zero,
      "min" never plural, seconds always and last. */
  function DurationText(d: Duration): string
  {
    DaysText(d) + HoursText(d) + MinsText(d) + Decimal(d.secs) + " sec"
  }

  function DaysText(d: Duration): string
  {
    if d.days > 0 then Counted(d.days, " day ", " days ") else ""
  }

  function HoursText(d: Duration): string
  {
    if d.hours > 0 then Counted(d.hours, " hour ", " hours ") else ""
  }

  function MinsText(d: Duration): string
  {
    if d.mins > 0 then Decimal(d.mins) + " min " else ""
  }

  /** nice_time: the uptime as "<d> day(s) <h> hour(s) <m> min <s> sec". */
  method NiceTime(sec: nat) returns (text: string)
    ensures text == DurationText(Split(sec))
  {
    ghost var d := Split(sec);
    var s := sec;
    text := "";
    if s >= 3600 * 24 {
      var tmp := s / (3600 * 24);
      s := s - 3600 * 24 * tmp;
      text := text + Decimal(tmp) + (if tmp > 1 then " days " else " day ");
    }
    assert s == sec % 86400 && text == DaysText(d);
    if s >= 3600 {
      var tmp := s / 3600;
      s := s - 3600 * tmp;
      text := text + Decimal(tmp) + (if tmp > 1 then " hours " else " hour ");
    }
    assert s == sec % 86400 % 3600 && text == DaysText(d) + HoursText(d);
    if s >= 60 {
      var tmp := s / 60;
      s := s - 60 * tmp;
      text := text + Decimal(tmp) + " min ";
    }
    assert s == d.secs && text == DaysText(d) + HoursText(d) + MinsText(d);
    text := text + Decimal(s) + " sec";
  }

  /* ---------------------------------------------------------------- */
  /* mask_password and the -p option                                   */
  /* ---------------------------------------------------------------- */

  /** An argument after it is overwritten with 'x' and cut to one
      character. */
  function Mask(arg: string): (m: string)
    ensures |m| <= 1 && (|m| == 0 <==> |arg| == 0)
    ensures forall k :: 0 <= k < |m| ==> m[k] == 'x'
  {
    if arg == [] then [] else "x"
  }

  /** The command line after mask_password: every argument that follows
      a password or old-password command (`isPasswordCommand`, find_type
      on the command list) is masked, judged on the arguments as given. */
  function MaskedArgs(argv: seq<string>, isPasswordCommand: string -> bool): (r: seq<string>)
    ensures |r| == |argv|
    decreases |argv|
  {
    if |argv| <= 1 then argv
    else
      var n := |argv| - 1;
      var front := MaskedArgs(argv[..n], isPasswordCommand);
      front + [if isPasswordCommand(argv[n - 1]) then Mask(argv[n]) else argv[n]]
  }

  /** Argument i is masked exactly when the argument before it, as
      given, is a password command; the program name never is. */
  lemma {:induction false} MaskedArgsAt(argv: seq<string>, isPasswordCommand: string -> bool, i: nat)
    requires i < |argv|
    ensures MaskedArgs(argv, isPasswordCommand)[i]
         == if i > 0 && isPasswordCommand(argv[i - 1]) then Mask(argv[i]) else argv[i]
    decreases |argv|
  {
    var n := |argv| - 1;
    if |argv| > 1 && i < n {
      MaskedArgsAt(argv[..n], isPasswordCommand, i);
      assert argv[..n][i] == argv[i];
      if i > 0 {
        assert argv[..n][i - 1] == argv[i - 1];
      }
    }
  }

  /** mask_password: masks the command line in place from the last
      argument down, and returns a copy of it as given (none for an
      empty command line); the program name is never masked. */
  method MaskPassword(argv: array<string>, isPasswordCommand: string -> bool) returns (temp: array?<string>)
    modifies argv
    ensures (temp == null) <==> argv.Length == 0
    ensures temp != null ==> fresh(temp) && temp[..] == old(argv[..])
    ensures argv[..] == MaskedArgs(old(argv[..]), isPasswordCommand)
  {
    if argv.Length == 0 {
      return null;
    }
    ghost var given := argv[..];
    ghost var masked := MaskedArgs(given, isPasswordCommand);
    temp := new string[argv.Length];
    var argc := argv.Length - 1;
    while argc > 0
      invariant 0 <= argc < argv.Length
      invariant forall k :: 0 <= k <= argc ==> argv[k] == given[k]
      invariant forall k :: argc < k < argv.Length ==> argv[k] == masked[k] && temp[k] == given[k]
    {
      assert argv[argc] == given[argc] && argv[argc - 1] == given[argc - 1];
      MaskedArgsAt(given, isPasswordCommand, argc);
      temp[argc] := argv[argc];
      if isPasswordCommand(argv[argc - 1]) {
        argv[argc] := Mask(argv[argc]);
      }
      assert argv[argc] == masked[argc] && temp[argc] == given[argc];
      argc := argc - 1;
    }
    temp[0] := argv[0];
    MaskedArgsAt(given, isPasswordCommand, 0);
    assert argv[..] == masked;
    assert temp[..] == given;
  }

  /** How an option arrives: without argument, as --skip (the disabled
      marker), or with an argument. */
  datatype OptArg = NoArgument | DisabledOption | Argument(text: string)

  /* ---------------------------------------------------------------- */
  /* atoi and the -w option                                            */
  /* ---------------------------------------------------------------- */

  predicate IsSpace(c: char)
  {
    c == ' ' || '\t' <= c <= '\r'
  }

  function SkipSpace(s: string): (t: string)
    ensures |t| <= |s| && t == s[|s| - |t|..]
    ensures t != [] ==> !IsSpace(t[0])
  {
    if s != [] && IsSpace(s[0]) then SkipSpace(s[1..]) else s
  }

  /** The longest run of digits at the start of `s`. */
  function DigitPrefix(s: string): (d: string)
    ensures |d| <= |s| && d == s[..|d|]
    ensures forall k :: 0 <= k < |d| ==> IsDigit(d[k])
  {
    if s != [] && IsDigit(s[0]) then [s[0]] + DigitPrefix(s[1..]) else []
  }

  /** atoi: strtol in base 10 (blanks, a sign, digits, clamped to a
      64-bit long), converted to a 32-bit int by wrapping. */
  function Atoi(s: string): (r: int)
    ensures -0x8000_0000 <= r < 0x8000_0000
  {
    var t := SkipSpace(s);
    var negative := t != [] && t[0] == '-';
    var u := if t != [] && (t[0] == '-' || t[0] == '+') then t[1..] else t;
    var v: int := DigitsValue(DigitPrefix(u));
    var long: int := if negative then (if v > Two63 then -Two63 else -v)
                     else (if v >= Two63 then Two63 - 1 else v);
    (long + 0x8000_0000) % 0x1_0000_0000 - 0x8000_0000
  }

  /** A string of digits is its own digit prefix. */
  lemma {:induction false} DigitPrefixAll(d: string)
    requires forall k :: 0 <= k < |d| ==> IsDigit(d[k])
    ensures DigitPrefix(d) == d
  {
    if d != [] {
      DigitPrefixAll(d[1..]);
    }
  }

  /** atoi of a string with no leading blank and no sign. */
  lemma AtoiUnsigned(t: string, v: nat)
    requires t != [] && !IsSpace(t[0]) && t[0] != '-' && t[0] != '+'
    requires DigitsValue(DigitPrefix(t)) == v && v < 0x8000_0000
    ensures Atoi(t) == v
  {
    assert SkipSpace(t) == t;
  }

  /** atoi of a minus sign followed by digits worth `v`. */
  lemma AtoiMinus(t: string, v: int)
    requires t != [] && t[0] == '-'
    requires DigitsValue(DigitPrefix(t[1..])) == v && v <= 0x8000_0000
    ensures Atoi(t) == -v
  {
    assert SkipSpace(t) == t;
  }

  /** atoi reads back any int the way llstr writes it. */
  lemma AtoiReadsSignedDecimal(n: int)
    requires -0x8000_0000 <= n < 0x8000_0000
    ensures Atoi(SignedDecimal(n)) == n
  {
    var m: nat := if n < 0 then -n else n;
    var d := Decimal(m);
    DigitPrefixAll(d);
    DecimalRoundTrip(m);
    var s := SignedDecimal(n);
    if n < 0 {
      assert s[1..] == d;
      AtoiMinus(s, m);
    } else {
      assert s == d && IsDigit(s[0]);
      AtoiUnsigned(s, m);
    }
  }

  /** option_wait after -w as written: atoi's result `n` stored in an
      unsigned int, then replaced by 1 when not above 0. */
  function StoreWaitAsWritten(n: int): nat
  {
    var w := n % 0x1_0000_0000;
    if w <= 0 then 1 else w
  }

  /** option_wait after -w as intended: a count that is not positive
      becomes 1. */
  function StoreWait(n: int): (r: nat)
    requires n < 0x8000_0000
    ensures 1 <= r <= UintMax
    ensures n > 0 ==> r == n
  {
    if n <= 0 then 1 else n
  }

  /** option_wait after -w: the count given, or ~0 without one. */
  function Wait(argument: Option<string>): (r: nat)
    ensures 1 <= r <= UintMax
  {
    match argument
    case None => UintMax
    case Some(a) => StoreWait(Atoi(a))
  }

  /** A negative count wraps to a huge wait as written: atoi giving -5
      waits 4294967291 times instead of once. */
  lemma StoreWaitNegativeWraps(n: int)
    requires -0x8000_0000 <= n < 0
    ensures StoreWaitAsWritten(n) == n + 0x1_0000_0000 && StoreWait(n) == 1
    ensures StoreWaitAsWritten(n) > 0x7FFF_FFFF
  {
  }

  /** atoi reads "-5" as -5, so "-w -5" is such a count. */
  lemma AtoiMinusFive()
    ensures Atoi("-5") == -5
  {
    var u: string := "5";
    assert SkipSpace("-5") == "-5";
    assert DigitPrefix(u) == u by {
      assert DigitPrefix(u[1..]) == [];
    }
    assert DigitsValue(u) == 5 by {
      assert u[..0] == [];
    }
  }

  /** The two readings agree whenever the count is not negative. */
  lemma StoreWaitAgreesOnNonNegative(n: int)
    requires 0 <= n < 0x8000_0000
    ensures StoreWaitAsWritten(n) == StoreWait(n)
  {
  }

  /** The option state get_one_option keeps for -p and -w. */
  class AdminOptions {
    var optPassword: Option<string>
    var ttyPassword: bool
    var optionWait: nat

    constructor ()
      ensures optPassword == None && !ttyPassword && optionWait == 0
    {
      optPassword, ttyPassword, optionWait := None, false, 0;
    }

    /** -p: a given (or disabled, read as empty) password is kept and
      the argument masked in place; without one the password is to be
      read from the terminal. */
    method OptionPassword(argument: OptArg) returns (left: Option<string>)
      modifies this
      ensures optionWait == old(optionWait)
      ensures argument.NoArgument? ==> left == None && ttyPassword && optPassword == old(optPassword)
      ensures !argument.NoArgument? ==>
                var given := if argument.DisabledOption? then "" else argument.text;
                optPassword == Some(given) && left == Some(Mask(given)) && !ttyPassword
    {
      var arg: Option<string> := match argument
        case NoArgument => None
        case DisabledOption => Some("")
        case Argument(text) => Some(text);
      if arg.Some? {
        optPassword := Some(arg.value);
        left := Some(Mask(arg.value));
        ttyPassword := false;
      } else {
        left := None;
        ttyPassword := true;
      }
    }

    /** -w: sets the number of connection retries. */
    method OptionWait(argument: Option<string>)
      modifies this
      ensures optionWait == Wait(argument)
      ensures optPassword == old(optPassword) && ttyPassword == old(ttyPassword)
    {
      if argument.Some? {
        var n := Atoi(argument.value);
        optionWait := if n <= 0 then 1 else n;
        assert optionWait == StoreWait(n);
      } else {
        optionWait := UintMax;
      }
    }
  }

  /* ---------------------------------------------------------------- */
  /* truncate_names                                                    */
  /* ---------------------------------------------------------------- */

  /** The first character of a C string (NUL for an empty one). */
  function FirstChar(name: string): char
  {
    if name == [] then '\0' else name[0]
  }

  /** How many of the first `i` names start with `c`. */
  function CountFirst(names: seq<string>, i: nat, c: char): (n: nat)
    requires i <= |names|
    ensures n <= i
  {
    if i == 0 then 0
    else CountFirst(names, i - 1, c) + (if FirstChar(names[i - 1]) == c then 1 else 0)
  }

  /** The short name of variable i: its first character and one more
      than the number of earlier names with that first character. */
  function TruncatedName(names: seq<string>, i: nat): string
    requires i < |names|
  {
    var c := FirstChar(names[i]);
    [c] + Decimal(1 + CountFirst(names, i, c))
  }

  lemma {:induction false} CountFirstGrows(names: seq<string>, i: nat, j: nat, c: char)
    requires i < j <= |names| && FirstChar(names[i]) == c
    ensures CountFirst(names, j, c) >= CountFirst(names, i, c) + 1
    decreases j
  {
    if j > i + 1 {
      CountFirstGrows(names, i, j - 1, c);
    }
  }

  /** No two variables get the same short name. */
  lemma TruncatedNamesDistinct(names: seq<string>, i: nat, j: nat)
    requires i < j < |names|
    ensures TruncatedName(names, i) != TruncatedName(names, j)
  {
    var a, b := TruncatedName(names, i), TruncatedName(names, j);
    var c := FirstChar(names[i]);
    if FirstChar(names[j]) == c {
      CountFirstGrows(names, i, j, c);
      if a == b {
        assert a[1..] == Decimal(1 + CountFirst(names, i, c));
        assert b[1..] == Decimal(1 + CountFirst(names, j, c));
        DecimalRoundTrip(1 + CountFirst(names, i, c));
        DecimalRoundTrip(1 + CountFirst(names, j, c));
      }
    } else {
      assert a[0] != b[0];
    }
  }

  /** The C string at `at` of a character buffer: up to the first NUL. */
  function CString(buf: seq<char>, at: nat): string
    decreases |buf| - at
  {
    if at >= |buf| || buf[at] == '\0' then "" else [buf[at]] + CString(buf, at + 1)
  }

  /** truncate_names as written: slot i of the table of
      MAX_TRUNC_LENGTH-character slots gets the first character, the
      decimal suffix and a NUL, however long the suffix is. */
  function WriteSlotAsWritten(buf: seq<char>, i: nat, c: char, sfx: nat): seq<char>
    requires MaxTruncLength * i + 2 + |Decimal(sfx)| <= |buf|
  {
    var w := [c] + Decimal(sfx) + ['\0'];
    buf[..MaxTruncLength * i] + w + buf[MaxTruncLength * i + |w|..]
  }

  /** A two-digit suffix puts the NUL in the next slot, which the next
      name then overwrites: the short name read from slot i runs on into
      slot i + 1's. */
  lemma SlotRunsOnAsWritten(buf: seq<char>, i: nat, c1: char, sfx1: nat, c2: char, sfx2: nat)
    requires 10 <= sfx1 < 100 && c1 != '\0'
    requires MaxTruncLength * (i + 1) + 2 + |Decimal(sfx2)| <= |buf|
    ensures MaxTruncLength * i + 2 + |Decimal(sfx1)| <= |buf|
    ensures var b := WriteSlotAsWritten(WriteSlotAsWritten(buf, i, c1, sfx1), i + 1, c2, sfx2);
            CString(b, MaxTruncLength * i) == [c1] + Decimal(sfx1) + CString(b, MaxTruncLength * (i + 1))
  {
    var d := Decimal(sfx1);
    assert |d| == 2 by {
      assert d == Decimal(sfx1 / 10) + [DigitChar(sfx1 % 10)];
    }
    var b1 := WriteSlotAsWritten(buf, i, c1, sfx1);
    var b := WriteSlotAsWritten(b1, i + 1, c2, sfx2);
    var at := MaxTruncLength * i;
    assert b[at] == c1 && b[at + 1] == d[0] && b[at + 2] == d[1];
    assert IsDigit(d[0]) && IsDigit(d[1]);
    assert CString(b, at) == [c1] + CString(b, at + 1);
    assert CString(b, at + 1) == [d[0]] + CString(b, at + 2);
    assert CString(b, at + 2) == [d[1]] + CString(b, at + 3);
    assert d == [d[0], d[1]];
  }

  /* ---------------------------------------------------------------- */
  /* The relative extended-status table                                */
  /* ---------------------------------------------------------------- */

  /** llstr's reading of the unsigned difference tmp - last: wrapped to
      64 bits and read as a signed value. */
  function Delta(tmp: uint64, last: uint64): (d: int)
    ensures -Two63 <= d < Two63
    ensures (last + d) % Two64 == tmp
    ensures -Two63 <= tmp - last < Two63 ==> d == tmp - last
  {
    var u := (tmp - last) % Two64;
    if u >= Two63 then u - Two64 else u
  }

  /** The value of a status row: strtoull of its text, 0 when missing. */
  function RowValue(cur1: Option<string>, strtoull: string -> uint64): uint64
  {
    if cur1.Some? then strtoull(cur1.value) else 0
  }

  /** The state the relative output keeps between rounds. */
  class ExtendedStatus {
    var varNames: seq<string>
    var truncatedVarNames: array<string>
    var lastValues: array<uint64>
    var exValMaxLen: array<nat>
    var exStatusPrinted: bool

    ghost predicate Valid()
      reads this
    {
      |varNames| <= truncatedVarNames.Length &&
      (lastValues as object) != (exValMaxLen as object)
    }

    constructor (names: seq<string>, values: seq<uint64>)
      ensures Valid() && varNames == names && !exStatusPrinted
      ensures lastValues[..] == values && fresh(lastValues)
      ensures exValMaxLen.Length == |values| && fresh(exValMaxLen)
      ensures truncatedVarNames.Length == |names| && fresh(truncatedVarNames)
    {
      varNames := names;
      truncatedVarNames := new string[|names|];
      lastValues := new uint64[|values|](k requires 0 <= k < |values| => values[k]);
      exValMaxLen := new nat[|values|](_ => 2);
      exStatusPrinted := false;
    }

    /** truncate_names: gives every variable its short name. */
    method TruncateNames()
      requires Valid()
      modifies truncatedVarNames
      ensures forall i :: 0 <= i < |varNames| ==> truncatedVarNames[i] == TruncatedName(varNames, i)
      ensures forall i :: |varNames| <= i < truncatedVarNames.Length ==> truncatedVarNames[i] == old(truncatedVarNames[i])
    {
      var i := 0;
      while i < |varNames|
        invariant 0 <= i <= |varNames|
        invariant forall k :: 0 <= k < i ==> truncatedVarNames[k] == TruncatedName(varNames, k)
        invariant forall k :: i <= k < truncatedVarNames.Length ==> truncatedVarNames[k] == old(truncatedVarNames[k])
      {
        var c := FirstChar(varNames[i]);
        var sfx := 1;
        var j := 0;
        while j < i
          invariant 0 <= j <= i
          invariant sfx == 1 + CountFirst(varNames, j, c)
          invariant forall k :: 0 <= k < i ==> truncatedVarNames[k] == TruncatedName(varNames, k)
        {
          if FirstChar(truncatedVarNames[j]) == c {
            sfx := sfx + 1;
          }
          j := j + 1;
        }
        truncatedVarNames[i] := [c] + Decimal(sfx);
        i := i + 1;
      }
    }

    /** print_relative_row: prints the name and the change since the
      last round, and remembers the new value. */
    method PrintRelativeRow(row: nat, cur0: string, cur1: Option<string>, width0: nat, width1: nat,
                            strtoull: string -> uint64) returns (line: string)
      requires row < lastValues.Length
      modifies lastValues
      ensures var tmp := RowValue(cur1, strtoull);
              line == "| " + LeftJustify(cur0, width0 + 1) + "| " +
                      LeftJustify(SignedDecimal(Delta(tmp, old(lastValues[row]))), width1 + 1) + "|\n" &&
              lastValues[..] == old(lastValues[..])[row := tmp]
    {
      var tmp := RowValue(cur1, strtoull);
      line := "| " + LeftJustify(cur0, width0 + 1) + "|";
      line := line + " " + LeftJustify(SignedDecimal(Delta(tmp, lastValues[row])), width1 + 1) + "|\n";
      lastValues[row] := tmp;
    }

    /** print_relative_row_vert: prints the change since the last round
      in a column of the remembered width, widens that column (never
      narrows it) only once the first round has been printed, and
      remembers the new value. */
    method PrintRelativeRowVert(row: nat, cur1: Option<string>, strtoull: string -> uint64) returns (cell: string)
      requires Valid() && row < lastValues.Length && row < exValMaxLen.Length
      modifies lastValues, exValMaxLen
      ensures var tmp := RowValue(cur1, strtoull);
              var text := SignedDecimal(Delta(tmp, old(lastValues[row])));
              cell == (if row == 0 then "|" else "") + " " + LeftJustify(text, old(exValMaxLen[row]) + 1) + "|" &&
              lastValues[..] == old(lastValues[..])[row := tmp] &&
              exValMaxLen[..] == old(exValMaxLen[..])[row := if |text| > old(exValMaxLen[row]) && exStatusPrinted
                                                              then |text| else old(exValMaxLen[row])]
      ensures exValMaxLen[row] >= old(exValMaxLen[row])
      ensures !exStatusPrinted ==> exValMaxLen[..] == old(exValMaxLen[..])
    {
      cell := if row == 0 then "|" else "";
      var tmp := RowValue(cur1, strtoull);
      var buff := SignedDecimal(Delta(tmp, lastValues[row]));
      cell := cell + " " + LeftJustify(buff, exValMaxLen[row] + 1) + "|";
      var length := |buff|;
      if length > exValMaxLen[row] && exStatusPrinted {
        exValMaxLen[row] := length;
      }
      lastValues[row] := tmp;
    }
  }
}
