/**
 * The stateless admission helpers of the security middleware: the RUC/cédula
 * format check, the suspicious-pattern scanner and the internal-network address
 * test.
 */
module Security {
  import opened Wrappers
  import opened Text

  // ---------------------------------------------------------------------------
  // validate_ruc_format
  // ---------------------------------------------------------------------------

  /** The `(ok, message)` pair returned by the format check. */
  datatype FormatCheck = FormatCheck(valid: bool, message: string)

  const MsgNotAString := "RUC debe ser una cadena"
  const MsgNotDigits := "RUC debe contener solo números"
  const MsgBadLength := "RUC debe tener 10 o 13 dígitos"
  const MsgBadProvince := "Código de provincia inválido"

  /** Ecuadorian provinces are numbered 1 to 24. */
  predicate IsProvince(code: nat) {
    1 <= code <= 24
  }

  /** The two-digit province code that opens an identifier. */
  function ProvinceCode(id: string): nat
    requires |id| >= 2 && AllDigits(id)
  {
    DecimalValue(id[..2])
  }

  /** What a well-formed cédula (10 digits) or RUC (13 digits) looks like. */
  predicate WellFormedId(id: string) {
    && id != []
    && AllDigits(id)
    && (|id| == 10 || |id| == 13)
    && IsProvince(ProvinceCode(id))
  }

  /**
   * The rules run in a fixed order and the first one that fails picks the
   * message; only an identifier that passes all of them gets `(true, "")`.
   */
  function ValidateRucFormat(ruc: string): (r: FormatCheck)
    ensures r.valid <==> WellFormedId(ruc)
    ensures r.valid <==> r.message == ""
    ensures ruc == [] ==> r.message == MsgNotAString
    ensures ruc != [] && !AllDigits(ruc) ==> r.message == MsgNotDigits
    ensures ruc != [] && AllDigits(ruc) && |ruc| != 10 && |ruc| != 13 ==> r.message == MsgBadLength
    ensures (ruc != [] && AllDigits(ruc) && (|ruc| == 10 || |ruc| == 13) && !IsProvince(ProvinceCode(ruc)))
              ==> r.message == MsgBadProvince
  {
    if ruc == [] then FormatCheck(false, MsgNotAString)
    else if !AllDigits(ruc) then FormatCheck(false, MsgNotDigits)
    else if |ruc| != 10 && |ruc| != 13 then FormatCheck(false, MsgBadLength)
    else if !IsProvince(ProvinceCode(ruc)) then FormatCheck(false, MsgBadProvince)
    else FormatCheck(true, "")
  }

  // ---------------------------------------------------------------------------
  // detect_suspicious_patterns
  // ---------------------------------------------------------------------------

  /** The `(found, message)` pair returned by the scanner. */
  datatype Scan = Scan(suspicious: bool, message: string)

  const MsgSuspicious := "Patrón sospechoso detectado: "

  /** The patterns, in the order in which they are tried. */
  const SuspiciousPatterns: seq<string> := [
    "SELECT", "UNION", "INSERT", "DELETE", "DROP", "CREATE",
    "<script", "javascript:", "eval(", "exec(",
    "../", "..\\", "/etc/", "/bin/", "/usr/",
    "system(", "os.", "subprocess", "import os"
  ]

  /** Pattern `k`, lower-cased, occurs in the (already lower-cased) text. */
  predicate MatchesPattern(patterns: seq<string>, k: nat, text: string)
    requires k < |patterns|
  {
    Contains(text, Lower(patterns[k]))
  }

  /** The first pattern at or after position `from` that occurs in `text`. */
  function FirstMatch(patterns: seq<string>, text: string, from: nat): (r: Option<nat>)
    requires from <= |patterns|
    ensures r.Some? ==> from <= r.value < |patterns| && MatchesPattern(patterns, r.value, text)
    ensures forall j :: from <= j < (if r.Some? then r.value else |patterns|) ==> !MatchesPattern(patterns, j, text)
    decreases |patterns| - from
  {
    if from == |patterns| then None
    else if MatchesPattern(patterns, from, text) then Some(from)
    else FirstMatch(patterns, text, from + 1)
  }

  /**
   * Case-insensitive scan: the first pattern, in list order, occurring in the
   * data is reported by name; no occurrence gives `(false, "")`.
   */
  function DetectSuspiciousPatterns(data: string): (r: Scan)
    ensures !r.suspicious <==> forall j :: 0 <= j < |SuspiciousPatterns| ==> !MatchesPattern(SuspiciousPatterns, j, Lower(data))
    ensures !r.suspicious ==> r.message == ""
    ensures r.suspicious ==>
              exists k :: 0 <= k < |SuspiciousPatterns|
                && MatchesPattern(SuspiciousPatterns, k, Lower(data))
                && (forall j :: 0 <= j < k ==> !MatchesPattern(SuspiciousPatterns, j, Lower(data)))
                && r.message == MsgSuspicious + SuspiciousPatterns[k]
  {
    match FirstMatch(SuspiciousPatterns, Lower(data), 0)
    case None => Scan(false, "")
    case Some(k) =>
      assert MatchesPattern(SuspiciousPatterns, k, Lower(data));
      Scan(true, MsgSuspicious + SuspiciousPatterns[k])
  }

  /** Upper and lower case are never told apart. */
  lemma DetectIgnoresCase(data: string)
    ensures DetectSuspiciousPatterns(data) == DetectSuspiciousPatterns(Lower(data))
  {
    LowerIdempotent(data);
  }

  /** Every pattern holds a character that is not a digit. */
  lemma PatternsHaveNonDigit(k: nat)
    requires k < |SuspiciousPatterns|
    ensures !AllDigits(Lower(SuspiciousPatterns[k]))
  {
    assert !IsDigit(Lower(SuspiciousPatterns[k])[0]);
  }

  /** A string of digits is never flagged. */
  lemma DigitsAreNeverSuspicious(data: string)
    requires AllDigits(data)
    ensures DetectSuspiciousPatterns(data) == Scan(false, "")
  {
    LowerOfLowercase(data);
    forall j | 0 <= j < |SuspiciousPatterns|
      ensures !MatchesPattern(SuspiciousPatterns, j, Lower(data))
    {
      PatternsHaveNonDigit(j);
      if MatchesPattern(SuspiciousPatterns, j, Lower(data)) {
        ContainedInDigits(data, Lower(SuspiciousPatterns[j]));
      }
    }
  }

  /**
   * The request path checks the format first and the patterns second; an
   * identifier that passes the first check always passes the second.
   */
  lemma WellFormedIdsPassDetection(id: string)
    requires ValidateRucFormat(id).valid
    ensures !DetectSuspiciousPatterns(id).suspicious
  {
    DigitsAreNeverSuspicious(id);
  }

  /**
   * Detection priority: data holding "select" in any case is reported as the
   * SQL keyword, whatever other patterns it also holds and wherever they are.
   */
  lemma SqlKeywordTakesPriority(data: string)
    requires Contains(Lower(data), "select")
    ensures DetectSuspiciousPatterns(data) == Scan(true, MsgSuspicious + "SELECT")
  {
    var keyword := "select";
    assert Lower(SuspiciousPatterns[0]) == keyword by {
      assert SuspiciousPatterns[0] == "SELECT";
      assert forall i :: 0 <= i < |keyword| ==> Lower("SELECT")[i] == keyword[i];
    }
    assert MatchesPattern(SuspiciousPatterns, 0, Lower(data));
  }

  // ---------------------------------------------------------------------------
  // is_internal_docker_ip
  // ---------------------------------------------------------------------------

  /** The four octets of a dotted-quad IPv4 address. */
  datatype Octets = Octets(a: nat, b: nat, c: nat, d: nat)

  predicate ValidOctets(o: Octets) {
    o.a <= 255 && o.b <= 255 && o.c <= 255 && o.d <= 255
  }

  /** The address as the 32-bit integer the address library stores. */
  function AddressValue(o: Octets): nat {
    ((o.a * 256 + o.b) * 256 + o.c) * 256 + o.d
  }

  /**
   * One octet, under the strict rules of Python's ipaddress module:
   * 1 to 3 ASCII digits, no leading zero except in "0", at most 255.
   */
  function ParseOctet(part: string): (r: Option<nat>)
    ensures r.Some? ==> r.value <= 255 && AllDigits(part) && r.value == DecimalValue(part)
    ensures r.Some? ==> Decimal(r.value) == part
  {
    if part == [] || !AllDigits(part) || |part| > 3 || (part != "0" && part[0] == '0') then None
    else if DecimalValue(part) > 255 then None
    else
      assert Canonical(part);
      DecimalOfCanonical(part);
      Some(DecimalValue(part))
  }

  /** A dotted quad: exactly four parts separated by '.', each a valid octet. */
  function ParseIPv4(s: string): (r: Option<Octets>)
    ensures r.Some? ==> ValidOctets(r.value)
  {
    var parts := Split(s, '.');
    if |parts| != 4 then None
    else
      match (ParseOctet(parts[0]), ParseOctet(parts[1]), ParseOctet(parts[2]), ParseOctet(parts[3]))
      case (Some(a), Some(b), Some(c), Some(d)) => Some(Octets(a, b, c, d))
      case _ => None
  }

  /** The canonical dotted-quad spelling of an address. */
  function FormatIPv4(o: Octets): string {
    Join([Decimal(o.a), Decimal(o.b), Decimal(o.c), Decimal(o.d)], '.')
  }

  lemma DecimalHasNoDot(n: nat)
    ensures '.' !in Decimal(n)
  {
  }

  lemma ParseOctetOfDecimal(n: nat)
    requires n <= 255
    ensures ParseOctet(Decimal(n)) == Some(n)
  {
    DecimalLength(n);
    if |Decimal(n)| == 1 && Decimal(n)[0] == '0' {
      assert Decimal(n) == "0";
    }
  }

  /** Printing an address and parsing it back gives the same address. */
  lemma ParseOfFormat(o: Octets)
    requires ValidOctets(o)
    ensures ParseIPv4(FormatIPv4(o)) == Some(o)
  {
    var parts := [Decimal(o.a), Decimal(o.b), Decimal(o.c), Decimal(o.d)];
    DecimalHasNoDot(o.a);
    DecimalHasNoDot(o.b);
    DecimalHasNoDot(o.c);
    DecimalHasNoDot(o.d);
    SplitOfJoin(parts, '.');
    ParseOctetOfDecimal(o.a);
    ParseOctetOfDecimal(o.b);
    ParseOctetOfDecimal(o.c);
    ParseOctetOfDecimal(o.d);
  }

  /**
   * Parsing is strict: an accepted text is the canonical spelling of the
   * address it denotes, so leading zeros, over-long octets and stray
   * separators are all refused.
   */
  lemma FormatOfParse(s: string)
    requires ParseIPv4(s).Some?
    ensures FormatIPv4(ParseIPv4(s).value) == s
  {
    var parts := Split(s, '.');
    var o := ParseIPv4(s).value;
    assert [Decimal(o.a), Decimal(o.b), Decimal(o.c), Decimal(o.d)] == parts;
    JoinOfSplit(s, '.');
  }

  /** A block of addresses in CIDR notation: network address and prefix length. */
  datatype Network = Network(address: nat, prefixLen: nat)

  function Pow2(n: nat): (p: nat)
    ensures p >= 1
  {
    if n == 0 then 1 else 2 * Pow2(n - 1)
  }

  /** The number of addresses in a block: 2 to the power of the host bits. */
  function BlockSize(prefixLen: nat): nat {
    Pow2(if prefixLen >= 32 then 0 else 32 - prefixLen)
  }

  /**
   * The address lies in the block. The network addresses used here have no
   * host bits set, so this is the same as masking the address with the netmask.
   */
  predicate InNetwork(ip: nat, net: Network) {
    net.address <= ip < net.address + BlockSize(net.prefixLen)
  }

  /** 127.0.0.0/8, 10.0.0.0/8, 172.16.0.0/12 and 192.168.0.0/16. */
  const InternalRanges: seq<Network> := [
    Network(0x7F00_0000, 8),
    Network(0x0A00_0000, 8),
    Network(0xAC10_0000, 12),
    Network(0xC0A8_0000, 16)
  ]

  /** True for a parseable IPv4 address inside one of the internal ranges; false for anything else. */
  predicate IsInternalDockerIp(s: string): (r: bool)
    ensures r ==> ParseIPv4(s).Some?
  {
    match ParseIPv4(s)
    case None => false
    case Some(o) => exists k :: 0 <= k < |InternalRanges| && InNetwork(AddressValue(o), InternalRanges[k])
  }

  /** The same ranges read off the octets. */
  predicate InternalOctets(o: Octets) {
    || o.a == 127
    || o.a == 10
    || (o.a == 172 && 16 <= o.b <= 31)
    || (o.a == 192 && o.b == 168)
  }

  lemma {:induction false} Pow2Add(m: nat, n: nat)
    ensures Pow2(m + n) == Pow2(m) * Pow2(n)
    decreases m
  {
    if m > 0 {
      Pow2Add(m - 1, n);
      assert Pow2(m + n) == 2 * Pow2(m - 1 + n);
    }
  }

  lemma BlockSizes()
    ensures BlockSize(8) == 0x100_0000 && BlockSize(12) == 0x10_0000 && BlockSize(16) == 0x1_0000
  {
    assert Pow2(4) == 16;
    Pow2Add(4, 4);
    Pow2Add(8, 8);
    Pow2Add(16, 4);
    Pow2Add(16, 8);
  }

  /** An address lies in one of the internal ranges exactly when its octets say so. */
  lemma InRangesIff(o: Octets)
    requires ValidOctets(o)
    ensures (exists k :: 0 <= k < |InternalRanges| && InNetwork(AddressValue(o), InternalRanges[k])) <==> InternalOctets(o)
  {
    BlockSizes();
    var ip := AddressValue(o);
    var low := o.c * 256 + o.d;
    assert 0 <= low < 0x1_0000;
    assert ip == o.a * 0x100_0000 + o.b * 0x1_0000 + low;
    assert InNetwork(ip, InternalRanges[0]) <==> o.a == 127;
    assert InNetwork(ip, InternalRanges[1]) <==> o.a == 10;
    assert InNetwork(ip, InternalRanges[2]) <==> o.a == 172 && 16 <= o.b <= 31;
    assert InNetwork(ip, InternalRanges[3]) <==> o.a == 192 && o.b == 168;
  }

  /**
   * The membership test accepts exactly the parseable addresses whose octets
   * lie in the loopback, 10/8, 172.16/12 or 192.168/16 ranges.
   */
  lemma InternalIff(s: string)
    ensures IsInternalDockerIp(s) <==> ParseIPv4(s).Some? && InternalOctets(ParseIPv4(s).value)
  {
    match ParseIPv4(s)
    case None =>
    case Some(o) => InRangesIff(o);
  }

  /** Text that is not a dotted quad, an IPv6 address for one, is never internal. */
  lemma UnparseableIsExternal(s: string)
    requires ParseIPv4(s).None?
    ensures !IsInternalDockerIp(s)
  {
  }
}
