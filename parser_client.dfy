/** The client's option parser: the callback `argp_parse` calls once per
    option and once at the end, filling a `client_arguments` record.
    `inet_pton` and `fopen` are oracles passed in as parameters. */
module ParserClient {
  import opened Bytes
  import opened Io
  import opened ArgCheck

  const KEY_ADDR: int := 'a' as int
  const KEY_PORT: int := 'p' as int
  const KEY_HASHREQ: int := 'n' as int
  const KEY_SMIN: int := 300
  const KEY_SMAX: int := 301
  const KEY_FILE: int := 'f' as int

  const AF_INET: int := 2
  /** `1 << 24`, the largest payload size a client may ask for. */
  const MAX_PAYLOAD: int := 0x100_0000

  const ADDRESS_INVALID := "Invalid address"
  const HASHREQ_NOT_A_NUMBER := "Invalid option for the number of hash requests (-n --hashreq), must be a number!"
  const HASHREQ_NEGATIVE := "The number of hash requests (-n --hashreq), must be >= 0"
  const SMIN_NOT_A_NUMBER := "Invalid option for the minimum size for the data payload (--smin), must be a number!"
  const SMIN_TOO_SMALL := "The minimum size for the data payload (--smin), must be >= 1"
  /** The source words this message as if it were about the minimum size. */
  const SMAX_NOT_A_NUMBER := "Invalid option for the minimum size for the data payload (--smax), must be a number!"
  const SMAX_TOO_LARGE := "The maximum size for the data payload (--smax), must be <= 2^24 (16777216)"

  const ADDR_REQUIRED := "Option -a (--addr) is required!"
  const HASHREQ_REQUIRED := "Option -n (--hashreq) is required!"
  const SMIN_REQUIRED := "Option --smin is required!"
  const SMAX_BELOW_SMIN := "The maximum size for the data payload (--smax), must be greater or equal than the minimum size (--smin)"
  const SMAX_REQUIRED := "Option --smax is required!"
  const FILE_REQUIRED := "Option -f (--file) is required!"

  function FileNotOpened(filename: string): string
  {
    "Error: could not open file '" + filename + "'"
  }

  /** The contents of a `client_arguments` record. `sinAddr` and `sinPort` are
      the octets of `addr.sin_addr` and `addr.sin_port` as they lie in memory,
      in network order; `file` is null until `fopen` succeeds. */
  datatype ClientArgs = ClientArgs(
    sinFamily: int, sinAddr: seq<byte>, sinPort: seq<byte>,
    hashnum: CInt, smin: CInt, smax: CInt, filename: string, file: FileStream?)

  /** What holds of the record between callbacks while no callback has
      reported an error: each field is unset or was accepted. */
  predicate Sane(a: ClientArgs)
  {
    && |a.sinAddr| == 4 && |a.sinPort| == 2
    && (a.sinPort == [0, 0] || MIN_PORT <= BytesToU16(a.sinPort) <= MAX_PORT)
    && a.hashnum >= -1
    && a.smin >= 0
    && 0 <= a.smax <= MAX_PAYLOAD
  }

  /** The checks at `ARGP_KEY_END`, in the order they run: for each, whether it
      reports an error, and the message. */
  function EndChecks(a: ClientArgs): seq<(bool, string)>
  {
    [ (a.sinAddr == [0, 0, 0, 0], ADDR_REQUIRED),
      (a.sinPort == [0, 0], PORT_REQUIRED),
      (a.hashnum == -1, HASHREQ_REQUIRED),
      (a.smin == 0, SMIN_REQUIRED),
      (a.smax < a.smin, SMAX_BELOW_SMIN),
      (a.smax == 0, SMAX_REQUIRED),
      (a.filename == "", FILE_REQUIRED),
      (a.file == null, FileNotOpened(a.filename)) ]
  }

  /** The message of the first check that reports an error, if any does. */
  function FirstFailure(checks: seq<(bool, string)>): (r: Option<string>)
    ensures r.None? <==> forall i | 0 <= i < |checks| :: !checks[i].0
    ensures r.Some? ==>
      exists i | 0 <= i < |checks| :: checks[i].0 && r.value == checks[i].1 &&
        forall j | 0 <= j < i :: !checks[j].0
  {
    if checks == [] then None
    else if checks[0].0 then Some(checks[0].1)
    else
      var r := FirstFailure(checks[1..]);
      assert forall i | 1 <= i < |checks| :: checks[i] == checks[1..][i - 1];
      r
  }

  /** The first check that reports an error decides the message. */
  lemma {:induction false} FirstFailureIs(checks: seq<(bool, string)>, k: nat)
    requires k < |checks| && checks[k].0
    requires forall j | 0 <= j < k :: !checks[j].0
    ensures FirstFailure(checks) == Some(checks[k].1)
  {
    if k > 0 {
      FirstFailureIs(checks[1..], k - 1);
    }
  }

  function AsReply(failure: Option<string>): Reply
  {
    if failure.Some? then Error(failure.value) else Handled
  }

  /** A record that passes the end-of-options checks has every option the
      parser's documentation calls required. */
  lemma CompleteIff(a: ClientArgs)
    ensures FirstFailure(EndChecks(a)).None? <==>
      && a.sinAddr != [0, 0, 0, 0] && a.sinPort != [0, 0] && a.hashnum != -1
      && a.smin != 0 && a.smin <= a.smax && a.smax != 0
      && a.filename != "" && a.file != null
  {
    var c := EndChecks(a);
    assert !c[0].0 && !c[1].0 && !c[2].0 && !c[3].0 && !c[4].0 && !c[5].0 && !c[6].0 && !c[7].0
      ==> forall i | 0 <= i < |c| :: !c[i].0;
  }

  /** Between callbacks the record obeys every bound the documentation states
      once the end-of-options checks pass: `1025 <= port <= 65535`,
      `hashnum >= 0` and `1 <= smin <= smax <= 2^24`. */
  lemma CompleteArgumentsInRange(a: ClientArgs)
    requires Sane(a) && FirstFailure(EndChecks(a)).None?
    ensures MIN_PORT <= BytesToU16(a.sinPort) <= MAX_PORT
    ensures a.hashnum >= 0
    ensures 1 <= a.smin <= a.smax <= MAX_PAYLOAD
    ensures a.file != null
  {
    CompleteIff(a);
  }

  /** "Option --smax is required!" is never reported for a sane record: with
      `--smin` missing the earlier `--smin` check fires, and with `--smin`
      given `smax == 0` is caught by the `smax < smin` check. */
  lemma SmaxRequiredUnreachable(a: ClientArgs)
    requires Sane(a)
    ensures FirstFailure(EndChecks(a)) != Some(SMAX_REQUIRED)
  {
    var c := EndChecks(a);
    if c[0].0 {
      FirstFailureIs(c, 0);
    } else if c[1].0 {
      FirstFailureIs(c, 1);
    } else if c[2].0 {
      FirstFailureIs(c, 2);
    } else if c[3].0 {
      FirstFailureIs(c, 3);
    } else if c[4].0 {
      FirstFailureIs(c, 4);
    } else if c[6].0 {
      FirstFailureIs(c, 6);
    } else if c[7].0 {
      FirstFailureIs(c, 7);
      assert c[7].1[0] == 'E';
    } else {
      CompleteIff(a);
    }
  }

  /** `client_arguments`: the record `client_parser` fills in. */
  class ClientArguments {
    var sinFamily: int
    var sinAddr: seq<byte>
    var sinPort: seq<byte>
    var hashnum: CInt
    var smin: CInt
    var smax: CInt
    var filename: string
    var file: FileStream?

    function Record(): ClientArgs
      reads this
    {
      ClientArgs(sinFamily, sinAddr, sinPort, hashnum, smin, smax, filename, file)
    }

    /** `client_arguments args{}`: everything zero, empty or null, except the
        `hashnum = -1` sentinel that marks `-n` as not yet given. */
    constructor ()
      ensures Record() == ClientArgs(0, [0, 0, 0, 0], [0, 0], -1, 0, 0, "", null)
      ensures Sane(Record())
    {
      sinFamily, sinAddr, sinPort := 0, [0, 0, 0, 0], [0, 0];
      hashnum, smin, smax := -1, 0, 0;
      filename, file := "", null;
    }

    /** `client_parser(key, arg, state)`. `address` is what `inet_pton` makes of
        `arg` (four octets in network order, or nothing when it rejects it) and
        `opened` what `fopen(arg, "r")` returns. A numeric option's digits must
        stand for a value that fits in an `int`. */
    method Parse(key: int, arg: string, address: Option<seq<byte>>, handle: FileStream?)
      returns (r: Reply)
      requires address.Some? ==> |address.value| == 4
      requires (key == KEY_PORT || key == KEY_HASHREQ || key == KEY_SMIN || key == KEY_SMAX) && AllDigits(arg) ==>
                 DecimalValue(arg) <= INT_MAX
      modifies this
      ensures key == KEY_ADDR ==>
        if address.None? then r == Error(ADDRESS_INVALID) && Record() == old(Record())
        else r == Handled && Record() == old(Record()).(sinAddr := address.value, sinFamily := AF_INET)
      ensures key == KEY_PORT ==>
        if !AllDigits(arg) then r == Error(PORT_NOT_A_NUMBER) && Record() == old(Record())
        else if !(MIN_PORT <= DecimalValue(arg) <= MAX_PORT) then
          r == Error(PORT_OUT_OF_RANGE) && Record() == old(Record())
        else r == Handled && Record() == old(Record()).(sinPort := U16ToBytes(DecimalValue(arg)))
      ensures key == KEY_HASHREQ ==>
        if !AllDigits(arg) then r == Error(HASHREQ_NOT_A_NUMBER) && Record() == old(Record())
        else r == Handled && Record() == old(Record()).(hashnum := DecimalValue(arg))
      ensures key == KEY_SMIN ==>
        if !AllDigits(arg) then r == Error(SMIN_NOT_A_NUMBER) && Record() == old(Record())
        else (Record() == old(Record()).(smin := DecimalValue(arg)) &&
              r == (if DecimalValue(arg) < 1 then Error(SMIN_TOO_SMALL) else Handled))
      ensures key == KEY_SMAX ==>
        if !AllDigits(arg) then r == Error(SMAX_NOT_A_NUMBER) && Record() == old(Record())
        else (Record() == old(Record()).(smax := DecimalValue(arg)) &&
              r == (if DecimalValue(arg) > MAX_PAYLOAD then Error(SMAX_TOO_LARGE) else Handled))
      ensures key == KEY_FILE ==>
        r == Handled && Record() == old(Record()).(filename := arg, file := handle)
      ensures key == ARGP_KEY_END ==>
        r == AsReply(FirstFailure(EndChecks(Record()))) && Record() == old(Record())
      ensures key !in {KEY_ADDR, KEY_PORT, KEY_HASHREQ, KEY_SMIN, KEY_SMAX, KEY_FILE, ARGP_KEY_END} ==>
        r == Unknown && Record() == old(Record())
      ensures Sane(old(Record())) && !r.Error? ==> Sane(Record())
    {
      if key == KEY_ADDR {
        r := ParseAddress(address);
      } else if key == KEY_PORT {
        r := ParsePort(arg);
      } else if key == KEY_HASHREQ {
        r := ParseHashreq(arg);
      } else if key == KEY_SMIN {
        r := ParseSmin(arg);
      } else if key == KEY_SMAX {
        r := ParseSmax(arg);
      } else if key == KEY_FILE {
        filename := arg;
        file := handle;
        r := Handled;
      } else if key == ARGP_KEY_END {
        r := CheckComplete();
      } else {
        r := Unknown;
      }
    }

    /** `-a`: `inet_pton` fills `addr.sin_addr`, or the address is rejected. */
    method ParseAddress(address: Option<seq<byte>>) returns (r: Reply)
      requires address.Some? ==> |address.value| == 4
      modifies this
      ensures if address.None? then r == Error(ADDRESS_INVALID) && Record() == old(Record())
              else r == Handled && Record() == old(Record()).(sinAddr := address.value, sinFamily := AF_INET)
      ensures Sane(old(Record())) && !r.Error? ==> Sane(Record())
    {
      if address.None? {
        return Error(ADDRESS_INVALID);
      }
      sinAddr := address.value;
      sinFamily := AF_INET;
      r := Handled;
    }

    /** `-p`: a digit string naming a port in 1025..65535, stored by `htons`. */
    method ParsePort(arg: string) returns (r: Reply)
      requires AllDigits(arg) ==> DecimalValue(arg) <= INT_MAX
      modifies this
      ensures if !AllDigits(arg) then r == Error(PORT_NOT_A_NUMBER) && Record() == old(Record())
              else if !(MIN_PORT <= DecimalValue(arg) <= MAX_PORT) then
                r == Error(PORT_OUT_OF_RANGE) && Record() == old(Record())
              else r == Handled && Record() == old(Record()).(sinPort := U16ToBytes(DecimalValue(arg)))
      ensures Sane(old(Record())) && !r.Error? ==> Sane(Record())
    {
      var number := IsNumber(arg);
      if !number {
        return Error(PORT_NOT_A_NUMBER);
      }
      if DecimalValue(arg) < MIN_PORT || DecimalValue(arg) > MAX_PORT {
        return Error(PORT_OUT_OF_RANGE);
      }
      sinPort := U16ToBytes(DecimalValue(arg));
      U16RoundTrip(DecimalValue(arg));
      r := Handled;
    }

    /** `-n`: a digit string, stored in `hashnum`. */
    method ParseHashreq(arg: string) returns (r: Reply)
      requires AllDigits(arg) ==> DecimalValue(arg) <= INT_MAX
      modifies this
      ensures if !AllDigits(arg) then r == Error(HASHREQ_NOT_A_NUMBER) && Record() == old(Record())
              else r == Handled && Record() == old(Record()).(hashnum := DecimalValue(arg))
      ensures Sane(old(Record())) && !r.Error? ==> Sane(Record())
    {
      var number := IsNumber(arg);
      if !number {
        return Error(HASHREQ_NOT_A_NUMBER);
      }
      hashnum := DecimalValue(arg);
      // `atoi` of a digit string is never negative: this check cannot fire.
      r := if hashnum < 0 then Error(HASHREQ_NEGATIVE) else Handled;
    }

    /** `--smin`: a digit string, stored in `smin`, that must be at least 1. */
    method ParseSmin(arg: string) returns (r: Reply)
      requires AllDigits(arg) ==> DecimalValue(arg) <= INT_MAX
      modifies this
      ensures if !AllDigits(arg) then r == Error(SMIN_NOT_A_NUMBER) && Record() == old(Record())
              else (Record() == old(Record()).(smin := DecimalValue(arg)) &&
                    r == (if DecimalValue(arg) < 1 then Error(SMIN_TOO_SMALL) else Handled))
      ensures Sane(old(Record())) && !r.Error? ==> Sane(Record())
    {
      var number := IsNumber(arg);
      if !number {
        return Error(SMIN_NOT_A_NUMBER);
      }
      smin := DecimalValue(arg);
      r := if smin < 1 then Error(SMIN_TOO_SMALL) else Handled;
    }

    /** `--smax`: a digit string, stored in `smax`, that must not exceed 2^24. */
    method ParseSmax(arg: string) returns (r: Reply)
      requires AllDigits(arg) ==> DecimalValue(arg) <= INT_MAX
      modifies this
      ensures if !AllDigits(arg) then r == Error(SMAX_NOT_A_NUMBER) && Record() == old(Record())
              else (Record() == old(Record()).(smax := DecimalValue(arg)) &&
                    r == (if DecimalValue(arg) > MAX_PAYLOAD then Error(SMAX_TOO_LARGE) else Handled))
      ensures Sane(old(Record())) && !r.Error? ==> Sane(Record())
    {
      var number := IsNumber(arg);
      if !number {
        return Error(SMAX_NOT_A_NUMBER);
      }
      smax := DecimalValue(arg);
      r := if smax > MAX_PAYLOAD then Error(SMAX_TOO_LARGE) else Handled;
    }

    /** The `ARGP_KEY_END` branch: the first check that fails ends the program
        with its message. */
    method CheckComplete() returns (r: Reply)
      ensures r == AsReply(FirstFailure(EndChecks(Record())))
    {
      ghost var c := EndChecks(Record());
      if sinAddr == [0, 0, 0, 0] {
        FirstFailureIs(c, 0);
        return Error(ADDR_REQUIRED);
      }
      if sinPort == [0, 0] {
        FirstFailureIs(c, 1);
        return Error(PORT_REQUIRED);
      }
      if hashnum == -1 {
        FirstFailureIs(c, 2);
        return Error(HASHREQ_REQUIRED);
      }
      if smin == 0 {
        FirstFailureIs(c, 3);
        return Error(SMIN_REQUIRED);
      }
      if smax < smin {
        FirstFailureIs(c, 4);
        return Error(SMAX_BELOW_SMIN);
      }
      if smax == 0 {
        FirstFailureIs(c, 5);
        return Error(SMAX_REQUIRED);
      }
      if filename == "" {
        FirstFailureIs(c, 6);
        return Error(FILE_REQUIRED);
      }
      if file == null {
        FirstFailureIs(c, 7);
        return Error(FileNotOpened(filename));
      }
      CompleteIff(Record());
      r := Handled;
    }
  }
}
