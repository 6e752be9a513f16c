/**
  The dispatch on the `--target` command-line string: a `file://` URL or a
  plain path names an output file, `udp://host:port` a UDP destination and
  `-` standard output. The `--mpegts` switch chooses, for files, between a
  Transport Stream and a raw H.264 elementary stream. Opening the file and
  sending the frames are left to the caller; the outcome of the dispatch is
  the `Sink` value.
 */
module Target {
  import opened Wrappers
  import opened Text

  const FILE_PREFIX: string := "file://"
  const UDP_PREFIX: string := "udp://"
  const STDOUT_TARGET: string := "-"
  /** The largest port number a UDP header can carry. */
  const UDP_PORT_MAX: int := 0xFFFF

  /** What a file destination receives. */
  datatype Container = MpegTs | RawH264

  datatype Sink =
    | File(path: string, container: Container)
    | Udp(host: string, port: int)
    | Stdout

  datatype TargetError =
    /** "UDP must have exactly one :" */
    | UdpColonCount
    /** the text after the colon is not a decimal `i32` */
    | BadPort(text: string)

  function ContainerFor(mpegts: bool): Container {
    if mpegts then MpegTs else RawH264
  }

  /** The `udp://` arm, given what follows the prefix: split on `:`, demand
      exactly two pieces, take the host as the first and parse the second
      as the port. */
  function ClassifyUdp(rest: string): (r: Result<Sink, TargetError>)
    ensures r == Err(UdpColonCount) <==> Count(rest, ':') != 1
    ensures r.Ok? ==>
      r.value.Udp? && ':' !in r.value.host && |r.value.host| < |rest| &&
      rest[..|r.value.host|] == r.value.host && rest[|r.value.host|] == ':' &&
      ParseI32(rest[|r.value.host| + 1..]) == Some(r.value.port)
    ensures r.Err? && r.error.BadPort? ==>
      ParseI32(r.error.text) == None && ':' !in r.error.text && |r.error.text| < |rest| &&
      rest[|rest| - |r.error.text| - 1] == ':' && rest[|rest| - |r.error.text|..] == r.error.text
  {
    var parts := Split(rest, ':');
    if |parts| == 2 then
      SplitJoin(rest, ':');
      assert rest == parts[0] + [':'] + parts[1];
      match ParseI32(parts[1])
      case Some(port) => Ok(Udp(parts[0], port))
      case None => Err(BadPort(parts[1]))
    else
      Err(UdpColonCount)
  }

  /** Conversely, a colon-free host, a colon and a colon-free port text are
      accepted exactly when the port text parses. */
  lemma ClassifyUdpAccepts(host: string, text: string)
    requires ':' !in host && ':' !in text
    ensures ClassifyUdp(host + [':'] + text) ==
      if ParseI32(text).Some? then Ok(Udp(host, ParseI32(text).value)) else Err(BadPort(text))
  {
    SplitAfterFreePiece(host, ':', text);
    SplitFree(text, ':');
  }

  /** The whole dispatch; the guards are tried in the order file://, udp://, "-". */
  function ClassifyTarget(target: string, mpegts: bool): (r: Result<Sink, TargetError>)
    ensures StartsWith(target, FILE_PREFIX) ==>
      r == Ok(File(target[|FILE_PREFIX|..], ContainerFor(mpegts)))
    ensures !StartsWith(target, FILE_PREFIX) && StartsWith(target, UDP_PREFIX) ==>
      r == ClassifyUdp(target[|UDP_PREFIX|..])
    ensures r == Ok(Stdout) <==> target == STDOUT_TARGET
    ensures !StartsWith(target, FILE_PREFIX) && !StartsWith(target, UDP_PREFIX) && target != STDOUT_TARGET ==>
      r == Ok(File(target, ContainerFor(mpegts)))
    ensures r.Err? ==> StartsWith(target, UDP_PREFIX) && !StartsWith(target, FILE_PREFIX)
    ensures r.Ok? && r.value.File? ==> r.value.container == ContainerFor(mpegts)
  {
    if StartsWith(target, FILE_PREFIX) then
      Ok(File(target[|FILE_PREFIX|..], ContainerFor(mpegts)))
    else if StartsWith(target, UDP_PREFIX) then
      ClassifyUdp(target[|UDP_PREFIX|..])
    else if target == STDOUT_TARGET then
      Ok(Stdout)
    else
      Ok(File(target, ContainerFor(mpegts)))
  }

  /** A canonical target string for each destination. */
  function Render(sink: Sink): string {
    match sink
    case File(path, _) => FILE_PREFIX + path
    case Udp(host, port) => UDP_PREFIX + host + [':'] + IntToDecimal(port)
    case Stdout => STDOUT_TARGET
  }

  /** The destinations a target string can name with the given `--mpegts` setting. */
  predicate Reachable(sink: Sink, mpegts: bool) {
    match sink
    case File(_, container) => container == ContainerFor(mpegts)
    case Udp(host, port) => ':' !in host && I32_MIN <= port <= I32_MAX
    case Stdout => true
  }

  /** Every reachable destination is selected by its canonical target string. */
  lemma RenderClassify(sink: Sink, mpegts: bool)
    requires Reachable(sink, mpegts)
    ensures ClassifyTarget(Render(sink), mpegts) == Ok(sink)
  {
    var t := Render(sink);
    match sink
    case File(path, _) =>
      assert t[..|FILE_PREFIX|] == FILE_PREFIX;
      assert t[|FILE_PREFIX|..] == path;
    case Udp(host, port) =>
      var dec := IntToDecimal(port);
      assert t[..|UDP_PREFIX|] == UDP_PREFIX;
      assert t[0] != FILE_PREFIX[0];
      assert t[|UDP_PREFIX|..] == host + [':'] + dec;
      assert ':' !in dec;
      ClassifyUdpAccepts(host, dec);
      ParseIntToDecimal(port);
    case Stdout =>
  }

  /** Only a destination the dispatch can produce comes out of it. */
  lemma ClassifyReachable(target: string, mpegts: bool)
    requires ClassifyTarget(target, mpegts).Ok?
    ensures Reachable(ClassifyTarget(target, mpegts).value, mpegts)
  {
  }

  /** A host that itself contains a colon, an IPv6 literal such as `[::1]`
      for one, is always refused, whatever follows it. */
  lemma ColonInHostRefused(host: string, port: string, mpegts: bool)
    requires ':' in host
    ensures ClassifyTarget(UDP_PREFIX + host + [':'] + port, mpegts) == Err(UdpColonCount)
  {
    var t := UDP_PREFIX + host + [':'] + port;
    assert t[..|UDP_PREFIX|] == UDP_PREFIX;
    assert t[0] != FILE_PREFIX[0];
    assert t[|UDP_PREFIX|..] == host + ([':'] + port);
    CountConcat(host, [':'] + port, ':');
    CountPositive(host, ':');
    CountConcat([':'], port, ':');
  }

  /** The port is any `i32`: a negative port, or one above the 16-bit range
      of UDP ports, is accepted and passed on. */
  lemma OutOfRangePortAccepted(host: string, port: int, mpegts: bool)
    requires ':' !in host && I32_MIN <= port <= I32_MAX
    requires port < 0 || port > UDP_PORT_MAX
    ensures ClassifyTarget(UDP_PREFIX + host + [':'] + IntToDecimal(port), mpegts) == Ok(Udp(host, port))
  {
    RenderClassify(Udp(host, port), mpegts);
  }
}
