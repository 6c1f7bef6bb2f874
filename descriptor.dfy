/**
  Device descriptors: `tcp:<address>` selects a TCP connection to `<address>`,
  `serial:<device>:<baud>` a serial port. Only the string handling is modelled;
  connecting and opening the port are not.
 */
module Descriptor {

  datatype Option<T> = None | Some(value: T)

  /** Rust's `u32`. */
  type uint32 = n: nat | n < 0x1_0000_0000

  datatype Device = Tcp(address: string) | Serial(path: string, baudRate: uint32)

  /** The ways a descriptor makes the program panic before any I/O. */
  datatype DeviceError =
    | UnsupportedDevice  // neither prefix
    | MissingBaudRate    // no `:` after the serial device name
    | InvalidBaudRate    // the baud field is not a `u32`

  datatype Result<T> = Ok(value: T) | Err(error: DeviceError)

  const TcpPrefix: string := "tcp:"
  const SerialPrefix: string := "serial:"

  predicate StartsWith(s: string, prefix: string) {
    |prefix| <= |s| && s[..|prefix|] == prefix
  }

  // ---------------------------------------------------------------------------
  // Splitting on a separator, as Rust's `str::split` with a `char` pattern

  /** The fields joined back together, one separator between neighbours. */
  function Join(fields: seq<string>, sep: char): string
    requires |fields| >= 1
  {
    if |fields| == 1 then fields[0] else fields[0] + [sep] + Join(fields[1..], sep)
  }

  /**
    The text between separators: n separators give n + 1 fields, the empty
    string gives one empty field.
   */
  function Split(s: string, sep: char): (fields: seq<string>)
    ensures |fields| >= 1
    ensures forall i :: 0 <= i < |fields| ==> sep !in fields[i]
    ensures Join(fields, sep) == s
    decreases |s|
  {
    if s == [] then
      [[]]
    else
      var tail := Split(s[1..], sep);
      if s[0] == sep then
        [[]] + tail
      else
        assert s == [s[0]] + s[1..];
        [[s[0]] + tail[0]] + tail[1..]
  }

  lemma {:induction false} SplitNoSeparator(x: string, sep: char)
    requires sep !in x
    ensures Split(x, sep) == [x]
    decreases |x|
  {
    if x != [] {
      SplitNoSeparator(x[1..], sep);
    }
  }

  lemma {:induction false} SplitFirstField(x: string, y: string, sep: char)
    requires sep !in x
    ensures Split(x + [sep] + y, sep) == [x] + Split(y, sep)
    decreases |x|
  {
    if x == [] {
      assert x + [sep] + y == [sep] + y;
      assert ([sep] + y)[1..] == y;
    } else {
      assert (x + [sep] + y)[1..] == x[1..] + [sep] + y;
      SplitFirstField(x[1..], y, sep);
      assert [x[0]] + x[1..] == x;
    }
  }

  /** Splitting undoes joining separator-free fields. */
  lemma {:induction false} SplitJoin(fields: seq<string>, sep: char)
    requires |fields| >= 1
    requires forall i :: 0 <= i < |fields| ==> sep !in fields[i]
    ensures Split(Join(fields, sep), sep) == fields
    decreases |fields|
  {
    if |fields| == 1 {
      SplitNoSeparator(fields[0], sep);
    } else {
      SplitJoin(fields[1..], sep);
      SplitFirstField(fields[0], Join(fields[1..], sep), sep);
      assert [fields[0]] + fields[1..] == fields;
    }
  }

  // ---------------------------------------------------------------------------
  // Parsing a `u32`, as Rust's `str::parse::<u32>`

  predicate IsDigit(c: char) {
    '0' <= c <= '9'
  }

  predicate AllDigits(s: string) {
    forall i :: 0 <= i < |s| ==> IsDigit(s[i])
  }

  /** The number a string of decimal digits denotes, most significant first. */
  function DigitsValue(s: string): nat
    requires AllDigits(s)
  {
    if s == [] then 0 else DigitsValue(s[..|s| - 1]) * 10 + (s[|s| - 1] as int - '0' as int)
  }

  /**
    An optional `+`, then at least one ASCII digit, denoting a number below
    2^32. A `-` is never accepted for an unsigned type.
   */
  function ParseUint32(s: string): (r: Option<uint32>)
    ensures s == [] ==> r == None
    ensures r.Some? ==> |s| >= (if s[0] == '+' then 2 else 1)
    ensures r.Some? ==> (IsDigit(s[0]) || s[0] == '+') && AllDigits(s[1..])
  {
    var digits := if |s| > 0 && s[0] == '+' then s[1..] else s;
    if |digits| == 0 || !AllDigits(digits) then None
    else if DigitsValue(digits) < 0x1_0000_0000 then Some(DigitsValue(digits))
    else None
  }

  /** The shortest decimal numeral of `n`. */
  function Decimal(n: nat): (s: string)
    ensures |s| > 0 && AllDigits(s)
    ensures |s| > 1 ==> s[0] != '0'
  {
    if n < 10 then [('0' as int + n) as char]
    else Decimal(n / 10) + [('0' as int + n % 10) as char]
  }

  function Zeros(k: nat): (z: string)
    ensures |z| == k && AllDigits(z)
  {
    seq(k, _ => '0')
  }

  /** The optional sign that `parse::<u32>` accepts. */
  function Sign(plus: bool): string {
    if plus then "+" else ""
  }

  lemma {:induction false} DecimalValue(n: nat)
    ensures DigitsValue(Decimal(n)) == n
  {
    if n >= 10 {
      var s := Decimal(n);
      assert s[..|s| - 1] == Decimal(n / 10);
      DecimalValue(n / 10);
    }
  }

  /** Leading zeros do not change the value of a numeral. */
  lemma {:induction false} LeadingZeros(k: nat, d: string)
    requires AllDigits(d)
    ensures AllDigits(Zeros(k) + d) && DigitsValue(Zeros(k) + d) == DigitsValue(d)
    decreases |d|, k
  {
    var z := Zeros(k) + d;
    assert AllDigits(z) by {
      forall i | 0 <= i < |z| ensures IsDigit(z[i]) {
        if i >= k {
          assert z[i] == d[i - k];
        }
      }
    }
    if d == [] {
      if k > 0 {
        assert z[..|z| - 1] == Zeros(k - 1) + [];
        LeadingZeros(k - 1, []);
      }
    } else {
      assert z[..|z| - 1] == Zeros(k) + d[..|d| - 1];
      LeadingZeros(k, d[..|d| - 1]);
    }
  }

  /** A numeral without a leading zero is the shortest numeral of its value. */
  lemma {:induction false} ShortestNumeral(t: string)
    requires |t| > 0 && AllDigits(t)
    requires |t| > 1 ==> t[0] != '0'
    ensures t == Decimal(DigitsValue(t))
    decreases |t|
  {
    if |t| > 1 {
      var front := t[..|t| - 1];
      ShortestNumeral(front);
      var x := DigitsValue(front);
      assert x != 0;
      var v := DigitsValue(t);
      assert v / 10 == x && v % 10 == t[|t| - 1] as int - '0' as int;
      assert t == front + [t[|t| - 1]];
    }
  }

  /** Every nonempty string of digits is some zeros followed by the shortest numeral of its value. */
  lemma {:induction false} DigitsSpelling(d: string) returns (k: nat)
    requires |d| > 0 && AllDigits(d)
    ensures d == Zeros(k) + Decimal(DigitsValue(d))
    decreases |d|
  {
    if d[0] == '0' && |d| > 1 {
      var k' := DigitsSpelling(d[1..]);
      assert d == Zeros(1) + d[1..];
      LeadingZeros(1, d[1..]);
      k := k' + 1;
      assert Zeros(k) == Zeros(1) + Zeros(k');
    } else {
      ShortestNumeral(d);
      k := 0;
    }
  }

  /** Without a sign, a string of digits parses to its value when that fits. */
  lemma ParseDigits(d: string)
    requires |d| > 0 && AllDigits(d)
    ensures ParseUint32(d) == if DigitsValue(d) < 0x1_0000_0000 then Some(DigitsValue(d)) else None
  {
    assert IsDigit(d[0]);
  }

  /** A leading `+` before a string of digits changes nothing. */
  lemma ParsePlus(d: string)
    requires |d| > 0 && AllDigits(d)
    ensures ParseUint32("+" + d) == ParseUint32(d)
  {
    assert IsDigit(d[0]);
    assert ("+" + d)[1..] == d;
  }

  /**
    A numeral parses to its value exactly when that value fits in 32 bits,
    whatever leading zeros it has, with or without a leading `+`.
   */
  lemma ParseDecimal(plus: bool, k: nat, n: nat)
    ensures ParseUint32(Sign(plus) + Zeros(k) + Decimal(n)) == if n < 0x1_0000_0000 then Some(n) else None
  {
    var digits := Zeros(k) + Decimal(n);
    DecimalValue(n);
    LeadingZeros(k, Decimal(n));
    ParseDigits(digits);
    assert Sign(plus) + Zeros(k) + Decimal(n) == Sign(plus) + digits;
    if plus {
      ParsePlus(digits);
    } else {
      assert Sign(plus) + digits == digits;
    }
  }

  /** A string that parses is an optional `+` and the digits whose value it parses to. */
  lemma SignedDigits(s: string) returns (plus: bool, digits: string)
    requires ParseUint32(s).Some?
    ensures s == Sign(plus) + digits
    ensures |digits| > 0 && AllDigits(digits) && ParseUint32(s).value == DigitsValue(digits)
  {
    plus := s[0] == '+';
    digits := if plus then s[1..] else s;
    assert |digits| > 0 && AllDigits(digits) by {
      if !plus {
        forall i | 0 < i < |s| ensures IsDigit(s[i]) {
          assert s[i] == s[1..][i - 1];
        }
      }
    }
    ParseDigits(digits);
    if plus {
      ParsePlus(digits);
      assert s == "+" + digits;
    }
  }

  /**
    Conversely, every string that parses is such a numeral: an optional `+`,
    some zeros, and the shortest numeral of the value it parses to.
   */
  lemma ParsedSpelling(s: string) returns (plus: bool, k: nat)
    requires ParseUint32(s).Some?
    ensures s == Sign(plus) + Zeros(k) + Decimal(ParseUint32(s).value)
  {
    var digits;
    plus, digits := SignedDigits(s);
    k := DigitsSpelling(digits);
    assert Sign(plus) + (Zeros(k) + Decimal(DigitsValue(digits))) == Sign(plus) + Zeros(k) + Decimal(DigitsValue(digits));
  }

  // ---------------------------------------------------------------------------
  // Dispatch on the descriptor

  /**
    The serial part of a descriptor: the device is the text before the first
    `:`, the baud rate the field after it, up to the next `:` if any.
   */
  function SerialConfig(rest: string): (r: Result<Device>)
    ensures r == Err(MissingBaudRate) <==> ':' !in rest
    ensures r.Ok? ==> r.value.Serial? && ':' !in r.value.path && StartsWith(rest, r.value.path + [':'])
  {
    var fields := Split(rest, ':');
    if |fields| < 2 then
      Err(MissingBaudRate)
    else
      assert rest == fields[0] + [':'] + Join(fields[1..], ':');
      match ParseUint32(fields[1])
      case None => Err(InvalidBaudRate)
      case Some(baud) => Ok(Serial(fields[0], baud))
  }

  function CreateDevice(config: string): (r: Result<Device>)
    ensures r == Err(UnsupportedDevice) <==> !StartsWith(config, TcpPrefix) && !StartsWith(config, SerialPrefix)
    ensures r.Ok? && r.value.Tcp? ==> config == TcpPrefix + r.value.address
    ensures r.Ok? && r.value.Serial? ==> StartsWith(config, SerialPrefix)
  {
    if StartsWith(config, TcpPrefix) then
      Ok(Tcp(config[|TcpPrefix|..]))
    else if StartsWith(config, SerialPrefix) then
      SerialConfig(config[|SerialPrefix|..])
    else
      Err(UnsupportedDevice)
  }

  /** Everything after the `serial:` prefix goes to the serial split. */
  lemma SerialDispatch(rest: string)
    ensures CreateDevice(SerialPrefix + rest) == SerialConfig(rest)
  {
    var config := SerialPrefix + rest;
    assert config[..|TcpPrefix|] != TcpPrefix by {
      assert config[0] == 's' && TcpPrefix[0] == 't';
    }
    assert config[..|SerialPrefix|] == SerialPrefix;
    assert config[|SerialPrefix|..] == rest;
  }

  /**
    A serial descriptor with at least a device and a baud field: extra fields
    are ignored, and a baud field that is not a `u32` is rejected.
   */
  lemma SerialFields(fields: seq<string>)
    requires |fields| >= 2
    requires forall i :: 0 <= i < |fields| ==> ':' !in fields[i]
    ensures CreateDevice(SerialPrefix + Join(fields, ':'))
            == match ParseUint32(fields[1])
               case None => Err(InvalidBaudRate)
               case Some(baud) => Ok(Serial(fields[0], baud))
  {
    SplitJoin(fields, ':');
    SerialDispatch(Join(fields, ':'));
  }

  /** A descriptor spelt out from a device, read back. */
  function Format(d: Device): string {
    match d
    case Tcp(address) => TcpPrefix + address
    case Serial(path, baud) => SerialPrefix + path + [':'] + Decimal(baud)
  }

  /** Everything after the `tcp:` prefix is the address. */
  lemma TcpDispatch(address: string)
    ensures CreateDevice(TcpPrefix + address) == Ok(Tcp(address))
  {
    var config := TcpPrefix + address;
    assert config[..|TcpPrefix|] == TcpPrefix;
    assert config[|TcpPrefix|..] == address;
  }

  /** Reading back a formatted descriptor gives the device it was formatted from. */
  lemma CreateDeviceFormat(d: Device)
    requires d.Serial? ==> ':' !in d.path
    ensures CreateDevice(Format(d)) == Ok(d)
  {
    match d
    case Tcp(address) =>
      TcpDispatch(address);
    case Serial(path, baud) =>
      var numeral := Decimal(baud);
      assert ':' !in numeral by {
        assert !IsDigit(':');
      }
      var fields := [path, numeral];
      assert Join(fields, ':') == path + [':'] + numeral by {
        assert fields[1..] == [numeral];
      }
      assert Format(d) == SerialPrefix + Join(fields, ':');
      SerialFields(fields);
      ParseDecimal(false, 0, baud);
      assert Sign(false) + Zeros(0) + numeral == numeral;
  }

  // ---------------------------------------------------------------------------
  // The descriptors of the command-line help

  lemma SerialExample()
    ensures CreateDevice("serial:/dev/ttyUSB0:115200") == Ok(Serial("/dev/ttyUSB0", 115200))
  {
    assert Decimal(115200) == "115200";
    assert Format(Serial("/dev/ttyUSB0", 115200)) == "serial:/dev/ttyUSB0:115200";
    CreateDeviceFormat(Serial("/dev/ttyUSB0", 115200));
  }

  lemma TcpExample()
    ensures CreateDevice("tcp:192.168.7.1:8000") == Ok(Tcp("192.168.7.1:8000"))
  {
    TcpDispatch("192.168.7.1:8000");
    assert TcpPrefix + "192.168.7.1:8000" == "tcp:192.168.7.1:8000";
  }

  /** A serial descriptor without its baud rate. */
  lemma MissingBaudExample()
    ensures CreateDevice("serial:COM1") == Err(MissingBaudRate)
  {
    SerialDispatch("COM1");
    assert SerialPrefix + "COM1" == "serial:COM1";
    var rest := "COM1";
    assert rest[0] != ':' && rest[1] != ':' && rest[2] != ':' && rest[3] != ':';
  }

  /** `echo` names a mode, not a device: given as the first device it is unsupported. */
  lemma UnsupportedExample()
    ensures CreateDevice("echo") == Err(UnsupportedDevice)
  {
    assert "echo"[0] != TcpPrefix[0] && "echo"[0] != SerialPrefix[0];
  }
}
