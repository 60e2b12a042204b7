/** `CalculateAddress` and the per-token loop of `Main`: classify a token,
    parse its operands, and hand them to the network calculator. */
module Calculator {
  import opened Types
  import Mask
  import Descriptor

  /** The tuple `CalculateNetwork` returns. */
  datatype Network = Network(network: Address, mask: Address, broadcast: Address, bitCount: byte)

  /** The framework and library calls the core makes; their code is not part
      of this model, so they are parameters. `None` stands for the exception
      a parser throws. */
  datatype Library = Library(
    parseIp: string -> Option<Address>,             // IPAddress.Parse
    parseByte: string -> Option<byte>,              // byte.Parse
    rangeNetwork: (Address, Address) -> Network,    // CalculateNetwork(start, end)
    prefixNetwork: (Address, byte) -> Network)      // CalculateNetwork(address, bitCount)

  /** What `CalculateAddress` produces for one token: the network it prints,
      or the exception it throws. Operands are parsed left to right. */
  function Calculate(arg: string, lib: Library): (r: Result<Network, Error>)
    ensures r == Err(InvalidSyntax) <==> Descriptor.Classify(arg).Malformed?
    ensures r.Err? && r.error.InvalidByte? ==> Descriptor.Classify(arg).Cidr?
    ensures r.Err? && r.error.InvalidMask? ==> Descriptor.Classify(arg).MaskForm?
  {
    match Descriptor.Classify(arg)
    case Range(s, e) =>
      (match (lib.parseIp(s), lib.parseIp(e))
       case (None, _) => Err(InvalidAddress(s))
       case (Some(_), None) => Err(InvalidAddress(e))
       case (Some(start), Some(end)) => Ok(lib.rangeNetwork(start, end)))
    case Cidr(a, n) =>
      (match (lib.parseIp(a), lib.parseByte(n))
       case (None, _) => Err(InvalidAddress(a))
       case (Some(_), None) => Err(InvalidByte(n))
       case (Some(address), Some(bitCount)) => Ok(lib.prefixNetwork(address, bitCount)))
    case MaskForm(a, m) =>
      (match (lib.parseIp(a), lib.parseIp(m))
       case (None, _) => Err(InvalidAddress(a))
       case (Some(_), None) => Err(InvalidAddress(m))
       case (Some(address), Some(mask)) =>
         match Mask.MaskToPrefix(mask)
         case Err(err) => Err(err)
         case Ok(bits) => Ok(lib.prefixNetwork(address, bits)))
    case Malformed => Err(InvalidSyntax)
  }

  method CalculateAddress(arg: string, lib: Library) returns (r: Result<Network, Error>)
    ensures r == Calculate(arg, lib)
  {
    var form := Descriptor.Classify(arg);
    match form
    case Range(s, e) =>
      var start := lib.parseIp(s);
      if start.None? { return Err(InvalidAddress(s)); }
      var end := lib.parseIp(e);
      if end.None? { return Err(InvalidAddress(e)); }
      r := Ok(lib.rangeNetwork(start.value, end.value));
    case Cidr(a, n) =>
      var address := lib.parseIp(a);
      if address.None? { return Err(InvalidAddress(a)); }
      var bitCount := lib.parseByte(n);
      if bitCount.None? { return Err(InvalidByte(n)); }
      r := Ok(lib.prefixNetwork(address.value, bitCount.value));
    case MaskForm(a, m) =>
      var address := lib.parseIp(a);
      if address.None? { return Err(InvalidAddress(a)); }
      var mask := lib.parseIp(m);
      if mask.None? { return Err(InvalidAddress(m)); }
      var bits := Mask.ParseMask(mask.value);
      if bits.Err? { return Err(bits.error); }
      r := Ok(lib.prefixNetwork(address.value, bits.value));
    case Malformed =>
      r := Err(InvalidSyntax);
  }

  /** `Main`: every token is calculated on its own; an exception is reported
      and the loop goes on with the next token; the exit code is always 0.
      The printed lines are the outcomes, in order. */
  method ProcessArguments(args: seq<string>, lib: Library)
    returns (outcomes: seq<Result<Network, Error>>, exitCode: int)
    ensures |outcomes| == |args|
    ensures forall i :: 0 <= i < |args| ==> outcomes[i] == Calculate(args[i], lib)
    ensures exitCode == 0
  {
    outcomes := [];
    ghost var expected := seq(|args|, i requires 0 <= i < |args| => Calculate(args[i], lib));
    for k := 0 to |args|
      invariant outcomes == expected[..k]
    {
      var outcome := CalculateAddress(args[k], lib);
      PrefixGrows(expected, k, outcome);
      outcomes := outcomes + [outcome];
    }
    exitCode := 0;
  }

  /** Appending element k to the first k elements gives the first k + 1. */
  lemma PrefixGrows<T>(s: seq<T>, k: nat, x: T)
    requires k < |s| && x == s[k]
    ensures s[..k] + [x] == s[..k + 1]
  {
  }

  /** `A%M` with M the mask of prefix k gives the same result as `A/N` with N
      read as k. */
  lemma MaskFormMatchesCidr(a: string, n: string, m: string, k: nat, lib: Library)
    requires a != [] && n != [] && m != []
    requires Descriptor.Plain(a) && Descriptor.Plain(n) && Descriptor.Plain(m)
    requires 1 <= k <= 32
    requires lib.parseByte(n) == Some(k)
    requires lib.parseIp(m) == Some(Mask.MaskOfPrefix(k))
    ensures Calculate(a + "%" + m, lib) == Calculate(a + "/" + n, lib)
  {
    Descriptor.ClassifyMaskForm(a, m);
    Descriptor.ClassifyCidr(a, n);
    Mask.PrefixMaskRoundTrip(k);
  }

  /** `A%0.0.0.0` is the single-host network of A: prefix 32, not 0. */
  lemma ZeroMaskIsHostNetwork(a: string, m: string, address: Address, lib: Library)
    requires a != [] && m != [] && Descriptor.Plain(a) && Descriptor.Plain(m)
    requires lib.parseIp(a) == Some(address)
    requires lib.parseIp(m) == Some([0, 0, 0, 0])
    ensures Calculate(a + "%" + m, lib) == Ok(lib.prefixNetwork(address, 32))
  {
    Descriptor.ClassifyMaskForm(a, m);
    Mask.ZeroMaskYields32();
  }

  /** `A%255.0.255.0` throws `Invalid mask` once A parses. */
  lemma NonContiguousMaskReported(a: string, m: string, lib: Library)
    requires a != [] && m != [] && Descriptor.Plain(a) && Descriptor.Plain(m)
    requires lib.parseIp(a).Some?
    requires lib.parseIp(m) == Some([255, 0, 255, 0])
    ensures Calculate(a + "%" + m, lib) == Err(InvalidMask([255, 0, 255, 0]))
  {
    Descriptor.ClassifyMaskForm(a, m);
    Mask.NonContiguousMaskRejected();
  }

  /** A token without separators, such as `abc`, throws
      "Invalid address range syntax" whatever the parsers do. */
  lemma PlainTokenRejected(s: string, lib: Library)
    requires Descriptor.Plain(s)
    ensures Calculate(s, lib) == Err(InvalidSyntax)
  {
    Descriptor.ClassifyNoSeparator(s);
  }

  /** `A-B/N` without '%' throws "Invalid address range syntax". */
  lemma RangeWithPrefixRejected(a: string, b: string, n: string, lib: Library)
    requires a != [] && b != [] && n != []
    requires Descriptor.Plain(a) && Descriptor.Plain(b) && Descriptor.Plain(n)
    ensures Calculate(a + "-" + b + "/" + n, lib) == Err(InvalidSyntax)
  {
    Descriptor.ClassifyRangeWithPrefix(a, b, n);
  }

  /** `A-B` hands both parsed ends to the range calculator; an unparsable
      start is reported before the end is looked at. */
  lemma RangeOutcome(a: string, b: string, lib: Library)
    requires a != [] && b != [] && Descriptor.Plain(a) && Descriptor.Plain(b)
    ensures lib.parseIp(a).None? ==> Calculate(a + "-" + b, lib) == Err(InvalidAddress(a))
    ensures lib.parseIp(a).Some? && lib.parseIp(b).None? ==>
              Calculate(a + "-" + b, lib) == Err(InvalidAddress(b))
    ensures lib.parseIp(a).Some? && lib.parseIp(b).Some? ==>
              Calculate(a + "-" + b, lib) == Ok(lib.rangeNetwork(lib.parseIp(a).value, lib.parseIp(b).value))
  {
    Descriptor.ClassifyRange(a, b);
  }
}
