/** The server's option parser: the callback `argp_parse` calls once per
    option and once at the end, filling a `server_arguments` record. */
module ParserServer {
  import opened Bytes
  import opened ArgCheck

  const KEY_PORT: int := 'p' as int
  const KEY_SALT: int := 's' as int

  /** The contents of a `server_arguments` record. */
  datatype ServerArgs = ServerArgs(port: CInt, salt: string, saltLen: nat)

  /** What holds of the record between callbacks while no callback has
      reported an error: the port is unset or was accepted, and the salt
      length is the length of the salt. */
  predicate Sane(a: ServerArgs)
  {
    (a.port == 0 || MIN_PORT <= a.port <= MAX_PORT) && a.saltLen == |a.salt|
  }

  /** `server_arguments`: the record `server_parser` fills in. */
  class ServerArguments {
    var port: CInt
    var salt: string
    var saltLen: nat

    function Record(): ServerArgs
      reads this
    {
      ServerArgs(port, salt, saltLen)
    }

    /** `server_arguments args{}`: no port, the empty salt. */
    constructor ()
      ensures Record() == ServerArgs(0, "", 0)
      ensures Sane(Record())
    {
      port, salt, saltLen := 0, "", 0;
    }

    /** `server_parser(key, arg, state)`. The port's digits must stand for a
        value that fits in an `int`. */
    method Parse(key: int, arg: string) returns (r: Reply)
      requires key == KEY_PORT && AllDigits(arg) ==> DecimalValue(arg) <= INT_MAX
      modifies this
      ensures key == KEY_PORT ==>
        if !AllDigits(arg) then r == Error(PORT_NOT_A_NUMBER) && Record() == old(Record())
        else if !(MIN_PORT <= DecimalValue(arg) <= MAX_PORT) then
          r == Error(PORT_OUT_OF_RANGE) && Record() == old(Record())
        else r == Handled && Record() == old(Record()).(port := DecimalValue(arg))
      ensures key == KEY_SALT ==>
        r == Handled && Record() == ServerArgs(old(port), arg, |arg|)
      ensures key == ARGP_KEY_END ==>
        Record() == old(Record()) && (r == Error(PORT_REQUIRED) <==> port == 0) && (port != 0 ==> r == Handled)
      ensures key !in {KEY_PORT, KEY_SALT, ARGP_KEY_END} ==> r == Unknown && Record() == old(Record())
      ensures Sane(old(Record())) && !r.Error? ==> Sane(Record())
    {
      if key == KEY_PORT {
        var number := IsNumber(arg);
        if !number {
          return Error(PORT_NOT_A_NUMBER);
        }
        if DecimalValue(arg) < MIN_PORT || DecimalValue(arg) > MAX_PORT {
          return Error(PORT_OUT_OF_RANGE);
        }
        port := DecimalValue(arg);
        r := Handled;
      } else if key == KEY_SALT {
        saltLen := |arg|;
        salt := arg;
        r := Handled;
      } else if key == ARGP_KEY_END {
        r := if port == 0 then Error(PORT_REQUIRED) else Handled;
      } else {
        r := Unknown;
      }
    }
  }
}
