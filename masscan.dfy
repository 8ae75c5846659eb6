/**
  internal/scanner/masscan.go: the masscan front end. `Run` starts masscan
  with a fixed argument list, reads its JSON output line by line and forwards
  the address of every line that decodes and lists an open port;
  `ReadFromFile` forwards the address of every element of a JSON array that
  masscan wrote earlier.

  The process, its pipes and the file are values here: a `Process` says which
  of the start-up calls fail, what lines masscan prints and whether `Wait`
  reports an error; a `JsonFile` says whether it opens, whether its first token
  reads, and what each array element decodes to. JSON decoding of a line is a
  function parameter. The channel the addresses are sent on becomes the
  sequence of addresses returned.
*/
module Masscan {
  import opened Wrappers
  import opened Bytes

  /** `MasscanResult`: an address and the ports masscan found open on it. */
  datatype MasscanResult = MasscanResult(ip: Str, ports: seq<int>)

  const OPEN_BRACKET: byte := 0x5B
  const CLOSE_BRACKET: byte := 0x5D
  const COMMA: byte := 0x2C
  /** Lines shorter than this are not results. */
  const MIN_LINE: nat := 10

  // ---------------------------------------------------------------------------
  // Arguments

  /** The arguments `Run` passes to masscan. */
  function Args(ipRange: Str, rate: Str, port: int, exclusions: Str): seq<Str> {
    var fixed := [ipRange, OfString("-p"), Decimal(port), OfString("--rate"), rate,
                  OfString("--exclude 255.255.255.255"), OfString("-oJ"), OfString("-")];
    if exclusions != [] then fixed + [OfString("--excludefile"), exclusions] else fixed
  }

  /**
    The range, the port in decimal and the rate each follow their flag; the
    broadcast exclusion is a single argument; JSON goes to standard output; and
    the exclusion file is passed, last, exactly when one is named.
  */
  lemma ArgsLayout(ipRange: Str, rate: Str, port: int, exclusions: Str)
    ensures var a := Args(ipRange, rate, port, exclusions);
            && |a| == (if exclusions == [] then 8 else 10)
            && a[0] == ipRange && a[1] == OfString("-p") && a[2] == Decimal(port)
            && a[3] == OfString("--rate") && a[4] == rate
            && a[5] == OfString("--exclude 255.255.255.255")
            && a[6] == OfString("-oJ") && a[7] == OfString("-")
            && (|a| == 10 <==> exclusions != [])
            && (exclusions != [] ==> a[8] == OfString("--excludefile") && a[9] == exclusions)
  {
    var fixed := [ipRange, OfString("-p"), Decimal(port), OfString("--rate"), rate,
                  OfString("--exclude 255.255.255.255"), OfString("-oJ"), OfString("-")];
    var tail := [OfString("--excludefile"), exclusions];
    assert Args(ipRange, rate, port, exclusions) == if exclusions != [] then fixed + tail else fixed;
  }

  // ---------------------------------------------------------------------------
  // Output lines

  /** A line that is too short to be a result, or that opens or closes masscan's JSON array. */
  predicate Skipped(line: Str) {
    |line| < MIN_LINE || line[0] == OPEN_BRACKET || line[0] == CLOSE_BRACKET
  }

  /** The line without its trailing comma, if it has one. */
  function StripComma(line: Str): (r: Str)
    requires |line| > 0
    ensures |r| >= |line| - 1
  {
    if line[|line| - 1] == COMMA then line[..|line| - 1] else line
  }

  /** Exactly one trailing comma is removed, and a line that does not end in a comma is kept whole. */
  lemma StripOneComma(line: Str)
    ensures StripComma(line + [COMMA]) == line
    ensures |line| > 0 && line[|line| - 1] != COMMA ==> StripComma(line) == line
    ensures StripComma(line + [COMMA, COMMA]) == line + [COMMA]
  {
    assert (line + [COMMA])[..|line|] == line;
    assert (line + [COMMA, COMMA])[..|line| + 1] == line + [COMMA];
  }

  /** A line whose address is forwarded: not skipped, it decodes, and it lists at least one port. */
  predicate Passes(line: Str, decode: Str -> Option<MasscanResult>) {
    && !Skipped(line)
    && decode(StripComma(line)).Some?
    && |decode(StripComma(line)).value.ports| > 0
  }

  /** What one line sends on the channel. */
  function Emitted(line: Str, decode: Str -> Option<MasscanResult>): seq<Str> {
    if Passes(line, decode) then [decode(StripComma(line)).value.ip] else []
  }

  /** The addresses forwarded for `lines`, in order. */
  function Forwarded(lines: seq<Str>, decode: Str -> Option<MasscanResult>): seq<Str> {
    if lines == [] then []
    else Forwarded(lines[..|lines| - 1], decode) + Emitted(lines[|lines| - 1], decode)
  }

  /** The loop over masscan's output lines: skip, strip the comma, decode, forward if it has ports. */
  method ScanLines(lines: seq<Str>, decode: Str -> Option<MasscanResult>) returns (ips: seq<Str>)
    ensures ips == Forwarded(lines, decode)
  {
    ips := [];
    var i := 0;
    while i < |lines|
      invariant 0 <= i <= |lines|
      invariant ips == Forwarded(lines[..i], decode)
    {
      assert lines[..i + 1][..i] == lines[..i];
      var line := lines[i];
      if |line| < MIN_LINE || line[0] == OPEN_BRACKET || line[0] == CLOSE_BRACKET {
        i := i + 1;
        continue;
      }
      if line[|line| - 1] == COMMA {
        line := line[..|line| - 1];
      }
      match decode(line) {
        case Some(res) =>
          if |res.ports| > 0 {
            ips := ips + [res.ip];
          }
        case None =>
      }
      i := i + 1;
    }
    assert lines[..i] == lines;
  }

  /**
    An address is forwarded exactly when some line that is not skipped decodes,
    after its trailing comma is stripped, to that address with at least one port.
  */
  lemma {:induction false} ForwardedExactly(lines: seq<Str>, decode: Str -> Option<MasscanResult>, ip: Str)
    ensures ip in Forwarded(lines, decode) <==>
              exists i :: 0 <= i < |lines| && Passes(lines[i], decode) && decode(StripComma(lines[i])).value.ip == ip
    decreases |lines|
  {
    if lines != [] {
      var prefix := lines[..|lines| - 1];
      ForwardedExactly(prefix, decode, ip);
      if ip in Forwarded(lines, decode) && ip !in Forwarded(prefix, decode) {
        var i := |lines| - 1;
        assert Passes(lines[i], decode) && decode(StripComma(lines[i])).value.ip == ip;
      }
      if exists i :: 0 <= i < |lines| && Passes(lines[i], decode) && decode(StripComma(lines[i])).value.ip == ip {
        var i :| 0 <= i < |lines| && Passes(lines[i], decode) && decode(StripComma(lines[i])).value.ip == ip;
        if i < |prefix| {
          assert prefix[i] == lines[i];
        }
      }
    }
  }

  /** At most one address per line. */
  lemma {:induction false} ForwardedBound(lines: seq<Str>, decode: Str -> Option<MasscanResult>)
    ensures |Forwarded(lines, decode)| <= |lines|
    decreases |lines|
  {
    if lines != [] {
      ForwardedBound(lines[..|lines| - 1], decode);
    }
  }

  /**
    The comma masscan writes after every result but the last does not change
    what a result line forwards.
  */
  lemma TrailingCommaIgnored(line: Str, decode: Str -> Option<MasscanResult>)
    requires |line| >= MIN_LINE && line[|line| - 1] != COMMA
    ensures Emitted(line + [COMMA], decode) == Emitted(line, decode)
  {
    StripOneComma(line);
  }

  // ---------------------------------------------------------------------------
  // Run

  /** What the masscan process does: which start-up call fails, what it prints, how it exits. */
  datatype Process = Process(pipeFails: bool, startFails: bool, stdout: seq<Str>, exitFails: bool)

  datatype RunError = PipeFailed | StartFailed | ExitFailed

  /**
    `Run`: builds the arguments; if the output pipe or the start fails, returns
    that error having forwarded nothing; otherwise forwards the addresses of the
    output lines and returns what `Wait` reports.
  */
  method Run(ipRange: Str, rate: Str, port: int, exclusions: Str, proc: Process,
             decode: Str -> Option<MasscanResult>)
    returns (args: seq<Str>, ips: seq<Str>, err: Option<RunError>)
    ensures args == Args(ipRange, rate, port, exclusions)
    ensures proc.pipeFails ==> ips == [] && err == Some(PipeFailed)
    ensures !proc.pipeFails && proc.startFails ==> ips == [] && err == Some(StartFailed)
    ensures !proc.pipeFails && !proc.startFails ==>
              ips == Forwarded(proc.stdout, decode) && err == (if proc.exitFails then Some(ExitFailed) else None)
  {
    args := [ipRange, OfString("-p"), Decimal(port), OfString("--rate"), rate,
             OfString("--exclude 255.255.255.255"), OfString("-oJ"), OfString("-")];
    if exclusions != [] {
      args := args + [OfString("--excludefile"), exclusions];
    }
    if proc.pipeFails {
      return args, [], Some(PipeFailed);
    }
    if proc.startFails {
      return args, [], Some(StartFailed);
    }
    ips := ScanLines(proc.stdout, decode);
    err := if proc.exitFails then Some(ExitFailed) else None;
  }

  // ---------------------------------------------------------------------------
  // ReadFromFile

  /**
    What one `decoder.Decode` call makes of the next array element: a result;
    a well-formed value of the wrong shape, which the decoder reports and steps
    over; or a syntax error, which the decoder keeps and reports again on every
    later call without moving on.
  */
  datatype Element = Decoded(res: MasscanResult) | Mismatch | Malformed

  /** A file of masscan's JSON output: whether it opens, whether its first token reads, and its elements. */
  datatype JsonFile = JsonFile(opens: bool, firstTokenReads: bool, elements: seq<Element>)

  datatype FileError = OpenFailed | TokenFailed | SyntaxError

  /**
    How `ReadFromFile` ends: it returns the addresses forwarded and its error,
    or it never returns, having forwarded `ips`.
  */
  datatype FileOutcome = Finished(ips: seq<Str>, err: Option<FileError>) | Hangs(ips: seq<Str>)

  /** The index of the first malformed element, if there is one. */
  function FirstMalformed(elements: seq<Element>): (r: Option<nat>)
    ensures r.Some? ==> r.value < |elements| && elements[r.value].Malformed?
    ensures forall j :: 0 <= j < |elements| && (r.None? || j < r.value) ==> !elements[j].Malformed?
  {
    if elements == [] then None
    else
      match FirstMalformed(elements[..|elements| - 1])
      case Some(k) => Some(k)
      case None => if elements[|elements| - 1].Malformed? then Some(|elements| - 1) else None
  }

  /** The addresses of the decoded elements, in order, whatever their ports. */
  function DecodedIps(elements: seq<Element>): seq<Str> {
    if elements == [] then []
    else
      var last := elements[|elements| - 1];
      DecodedIps(elements[..|elements| - 1]) + if last.Decoded? then [last.res.ip] else []
  }

  /**
    `ReadFromFile` as written: it forwards the address of every decoded
    element and steps over mismatched ones; at a malformed element
    `decoder.More` keeps reporting more input while `decoder.Decode` keeps
    failing, so the loop never ends.
  */
  function FileRead(f: JsonFile): FileOutcome {
    if !f.opens then Finished([], Some(OpenFailed))
    else if !f.firstTokenReads then Finished([], Some(TokenFailed))
    else
      match FirstMalformed(f.elements)
      case None => Finished(DecodedIps(f.elements), None)
      case Some(k) => Hangs(DecodedIps(f.elements[..k]))
  }

  /** The loop of `ReadFromFile` over the elements of the array. */
  method ReadFromFile(f: JsonFile) returns (outcome: FileOutcome)
    ensures outcome == FileRead(f)
  {
    if !f.opens {
      return Finished([], Some(OpenFailed));
    }
    if !f.firstTokenReads {
      return Finished([], Some(TokenFailed));
    }
    var ips: seq<Str> := [];
    var i := 0;
    while i < |f.elements|
      invariant 0 <= i <= |f.elements|
      invariant ips == DecodedIps(f.elements[..i])
      invariant forall j :: 0 <= j < i ==> !f.elements[j].Malformed?
    {
      assert f.elements[..i + 1][..i] == f.elements[..i];
      match f.elements[i] {
        case Decoded(res) =>
          ips := ips + [res.ip];
        case Mismatch =>
        case Malformed =>
          return Hangs(ips);
      }
      i := i + 1;
    }
    assert f.elements[..i] == f.elements;
    outcome := Finished(ips, None);
  }

  /** An address is among the decoded ones exactly when some element decodes to it, with any number of ports. */
  lemma {:induction false} DecodedIpsExactly(elements: seq<Element>, ip: Str)
    ensures ip in DecodedIps(elements) <==> exists j :: 0 <= j < |elements| && elements[j].Decoded? && elements[j].res.ip == ip
    decreases |elements|
  {
    if elements != [] {
      var prefix := elements[..|elements| - 1];
      DecodedIpsExactly(prefix, ip);
      if exists j :: 0 <= j < |elements| && elements[j].Decoded? && elements[j].res.ip == ip {
        var j :| 0 <= j < |elements| && elements[j].Decoded? && elements[j].res.ip == ip;
        if j < |prefix| {
          assert prefix[j] == elements[j];
        }
      }
    }
  }

  /**
    On a file without malformed elements, every decoded element's address is
    forwarded, including one that lists no ports, and nothing else is.
  */
  lemma ForwardsEveryDecoded(f: JsonFile, ip: Str)
    requires f.opens && f.firstTokenReads
    requires forall j :: 0 <= j < |f.elements| ==> !f.elements[j].Malformed?
    ensures FileRead(f).Finished? && FileRead(f).err == None
    ensures ip in FileRead(f).ips <==> exists j :: 0 <= j < |f.elements| && f.elements[j].Decoded? && f.elements[j].res.ip == ip
  {
    DecodedIpsExactly(f.elements, ip);
  }

  /** An element that decodes but lists no ports is forwarded from a file, where its line would not be from masscan's output. */
  lemma PortlessElementForwarded(ip: Str)
    ensures FileRead(JsonFile(true, true, [Decoded(MasscanResult(ip, []))])) == Finished([ip], None)
  {
    var elements := [Decoded(MasscanResult(ip, []))];
    assert elements[..0] == [];
    assert FirstMalformed(elements) == None;
    assert DecodedIps(elements) == [ip];
  }

  /** One malformed element after a result: the result is forwarded and the loop never ends. */
  lemma MalformedElementHangs(r: MasscanResult, later: seq<Element>)
    ensures FileRead(JsonFile(true, true, [Decoded(r), Malformed] + later)) == Hangs([r.ip])
  {
    var elements := [Decoded(r), Malformed] + later;
    assert elements[0].Decoded? && elements[1].Malformed?;
    assert FirstMalformed(elements) == Some(1);
    var first := elements[..1];
    assert first == [Decoded(r)] && first[..0] == [];
    assert DecodedIps(first) == [r.ip];
  }

  /** `ReadFromFile` corrected to stop at the first decoding error that the decoder cannot step over. */
  function FileReadStopping(f: JsonFile): FileOutcome {
    if !f.opens then Finished([], Some(OpenFailed))
    else if !f.firstTokenReads then Finished([], Some(TokenFailed))
    else
      match FirstMalformed(f.elements)
      case None => Finished(DecodedIps(f.elements), None)
      case Some(k) => Finished(DecodedIps(f.elements[..k]), Some(SyntaxError))
  }

  /**
    The corrected reader always returns: where the reader as written returns
    it returns the same, and where the reader as written hangs it returns what
    had been forwarded with a syntax error. It forwards exactly the decoded
    elements before the first malformed one.
  */
  lemma StoppingAgrees(f: JsonFile, ip: Str)
    ensures FileReadStopping(f).Finished?
    ensures FileRead(f).Finished? ==> FileReadStopping(f) == FileRead(f)
    ensures FileRead(f).Hangs? ==> FileReadStopping(f) == Finished(FileRead(f).ips, Some(SyntaxError))
    ensures f.opens && f.firstTokenReads ==>
              (ip in FileReadStopping(f).ips <==>
                 exists j :: 0 <= j < |f.elements| && f.elements[j].Decoded? && f.elements[j].res.ip == ip
                             && (FirstMalformed(f.elements).None? || j < FirstMalformed(f.elements).value))
  {
    if f.opens && f.firstTokenReads {
      match FirstMalformed(f.elements)
      case None =>
        DecodedIpsExactly(f.elements, ip);
      case Some(k) =>
        var prefix := f.elements[..k];
        DecodedIpsExactly(prefix, ip);
        if exists j :: 0 <= j < |f.elements| && f.elements[j].Decoded? && f.elements[j].res.ip == ip && j < k {
          var j :| 0 <= j < |f.elements| && f.elements[j].Decoded? && f.elements[j].res.ip == ip && j < k;
          assert prefix[j] == f.elements[j];
        }
    }
  }
}
