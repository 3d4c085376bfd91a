/** The formats the validator enforces, and whether the placeholders of static mode satisfy them. */
module Formats {
  import opened Strings
  import opened Json
  import opened Schemas
  import opened Validator
  import opened RefResolver
  import opened StaticWalker

  // ---- characters ----

  predicate IsLetter(c: char) {
    'a' <= c <= 'z' || 'A' <= c <= 'Z'
  }

  predicate IsHex(c: char) {
    IsDigit(c) || 'a' <= c <= 'f' || 'A' <= c <= 'F'
  }

  predicate Digits(s: string) {
    forall i | 0 <= i < |s| :: IsDigit(s[i])
  }

  predicate LabelChars(s: string) {
    forall i | 0 <= i < |s| :: IsLetter(s[i]) || IsDigit(s[i]) || s[i] == '-'
  }

  predicate DomainChars(s: string) {
    forall i | 0 <= i < |s| :: IsLetter(s[i]) || IsDigit(s[i]) || s[i] in {'.', '-'}
  }

  predicate LocalChars(s: string) {
    forall i | 0 <= i < |s| :: IsLetter(s[i]) || IsDigit(s[i]) || s[i] in {'.', '_', '%', '+', '-'}
  }

  predicate Letters(s: string) {
    forall i | 0 <= i < |s| :: IsLetter(s[i])
  }

  predicate SchemeChars(s: string) {
    forall i | 0 <= i < |s| :: IsLetter(s[i]) || IsDigit(s[i]) || s[i] in {'+', '.', '-'}
  }

  predicate HexDigits(s: string) {
    forall i | 0 <= i < |s| :: IsHex(s[i])
  }

  /** Two decimal digits. */
  function TwoDigits(s: string, i: nat): nat
    requires i + 2 <= |s| && Digits(s[i..i + 2])
  {
    assert s[i..i + 2][0] == s[i] && s[i..i + 2][1] == s[i + 1];
    10 * (s[i] as int - 48) + (s[i + 1] as int - 48)
  }

  // ---- dates and times ----

  predicate Leap(year: nat) {
    (year % 4 == 0 && year % 100 != 0) || year % 400 == 0
  }

  /** The last day of a month. */
  function LastDay(year: nat, month: nat): nat {
    if month in {1, 3, 5, 7, 8, 10, 12} then 31
    else if month in {4, 6, 9, 11} then 30
    else if month == 2 then if Leap(year) then 29 else 28
    else 0
  }

  /** `YYYY-MM-DD` and a day of the calendar. */
  predicate IsDate(s: string) {
    && |s| == 10 && s[4] == '-' && s[7] == '-'
    && Digits(s[0..2]) && Digits(s[2..4]) && Digits(s[5..7]) && Digits(s[8..10])
    && var year := 100 * TwoDigits(s, 0) + TwoDigits(s, 2);
       1 <= TwoDigits(s, 8) <= LastDay(year, TwoDigits(s, 5))
  }

  /** `HH:MM:SS`, and nothing behind it. */
  predicate IsTime(s: string) {
    && |s| == 8 && s[2] == ':' && s[5] == ':'
    && Digits(s[0..2]) && Digits(s[3..5]) && Digits(s[6..8])
    && TwoDigits(s, 0) < 24 && TwoDigits(s, 3) < 60 && TwoDigits(s, 6) <= 60
  }

  predicate IsFraction(s: string) {
    s == "" || (|s| > 1 && s[0] == '.' && Digits(s[1..]))
  }

  predicate IsZone(s: string) {
    || s in {"Z", "z"}
    || (|s| == 6 && s[0] in {'+', '-'} && s[3] == ':' && Digits(s[1..3]) && Digits(s[4..6]))
  }

  predicate IsDateTime(s: string) {
    && |s| > 19 && IsDate(s[..10]) && s[10] in {'T', 't'} && IsTime(s[11..19])
    && exists k | 19 <= k <= |s| :: IsFraction(s[19..k]) && IsZone(s[k..])
  }

  // ---- the other formats ----

  predicate IsEmail(s: string) {
    exists i, j | 0 < i < j - 1 < |s| - 3 ::
      && s[i] == '@' && s[j] == '.'
      && LocalChars(s[..i]) && DomainChars(s[i + 1..j]) && Letters(s[j + 1..])
  }

  /** A scheme and a colon. */
  predicate IsUri(s: string) {
    exists i | 0 < i < |s| :: s[i] == ':' && IsLetter(s[0]) && SchemeChars(s[..i])
  }

  predicate IsUuid(s: string) {
    && |s| == 36 && s[8] == '-' && s[13] == '-' && s[18] == '-' && s[23] == '-'
    && HexDigits(s[..8]) && HexDigits(s[9..13]) && HexDigits(s[14..18]) && HexDigits(s[19..23]) && HexDigits(s[24..])
  }

  predicate IsOctet(s: string) {
    && 1 <= |s| <= 3 && Digits(s) && (|s| > 1 ==> s[0] != '0')
    && (forall c | c in s :: IsDigit(c)) && DigitsValue(s) <= 255
  }

  predicate IsIpv4(s: string) {
    var parts := Split(s, '.');
    |parts| == 4 && forall i | 0 <= i < 4 :: IsOctet(parts[i])
  }

  predicate IsLabel(s: string) {
    1 <= |s| <= 63 && LabelChars(s)
  }

  predicate IsHostname(s: string) {
    var labels := Split(s, '.');
    forall i | 0 <= i < |labels| :: IsLabel(labels[i])
  }

  predicate Base64Chars(s: string) {
    forall i | 0 <= i < |s| :: IsLetter(s[i]) || IsDigit(s[i]) || s[i] in {'+', '/'}
  }

  /** Base64 in groups of four, with up to two signs of padding. */
  predicate IsBase64(s: string) {
    |s| % 4 == 0 && exists n | 0 <= n <= 2 && n <= |s| :: Base64Chars(s[..|s| - n]) && PaddedBy(s, n)
  }

  predicate PaddedBy(s: string, n: nat)
    requires n <= |s|
  {
    forall i | |s| - n <= i < |s| :: s[i] == '='
  }

  /** `matches_format`; parsing an IPv6 address is a parameter, and what is not enforced is let through. */
  predicate Enforced(ipv6: string -> bool, format: string, s: string) {
    match format
    case "email" => IsEmail(s)
    case "uri" => IsUri(s)
    case "uri-reference" => IsUri(s)
    case "uuid" => IsUuid(s)
    case "date-time" => IsDateTime(s)
    case "date" => IsDate(s)
    case "time" => IsTime(s)
    case "ipv4" => IsIpv4(s)
    case "ipv6" => ipv6(s)
    case "hostname" => IsHostname(s)
    case "byte" => IsBase64(s)
    case _ => true
  }

  // ---- the placeholders ----

  lemma EmailHolds()
    ensures IsEmail("user@example.com")
  {
    var s := "user@example.com";
    assert s[4] == '@' && s[12] == '.';
    assert s[..4] == "user" && s[5..12] == "example" && s[13..] == "com";
    assert 0 < 4 < 12 - 1 < |s| - 3;
  }

  lemma UriHolds()
    ensures IsUri("https://example.com")
  {
    var s := "https://example.com";
    assert s[5] == ':' && s[..5] == "https";
  }

  lemma DateHolds()
    ensures IsDate("2020-01-01")
  {
    var s := "2020-01-01";
    assert s[0..2] == "20" && s[2..4] == "20" && s[5..7] == "01" && s[8..10] == "01";
    assert TwoDigits(s, 0) == 20 && TwoDigits(s, 2) == 20 && TwoDigits(s, 5) == 1 && TwoDigits(s, 8) == 1;
  }

  lemma TimeHolds()
    ensures IsTime("00:00:00")
  {
    var s := "00:00:00";
    assert s[0..2] == "00" && s[3..5] == "00" && s[6..8] == "00";
    assert TwoDigits(s, 0) == 0 && TwoDigits(s, 3) == 0 && TwoDigits(s, 6) == 0;
  }

  lemma DateTimeHolds()
    ensures IsDateTime("2020-01-01T00:00:00Z")
  {
    var s := "2020-01-01T00:00:00Z";
    DateHolds();
    TimeHolds();
    assert s[..10] == "2020-01-01" && s[11..19] == "00:00:00";
    assert s[19..19] == "" && s[19..] == "Z";
    assert IsFraction(s[19..19]) && IsZone(s[19..]);
  }

  lemma UuidOf(a: string, b: string, c: string, d: string, e: string)
    requires |a| == 8 && |b| == |c| == |d| == 4 && |e| == 12
    requires HexDigits(a) && HexDigits(b) && HexDigits(c) && HexDigits(d) && HexDigits(e)
    ensures IsUuid(a + ['-'] + b + ['-'] + c + ['-'] + d + ['-'] + e)
  {
    var s := a + ['-'] + b + ['-'] + c + ['-'] + d + ['-'] + e;
    assert s[..8] == a && s[9..13] == b && s[14..18] == c && s[19..23] == d && s[24..] == e;
  }

  lemma UuidHolds()
    ensures IsUuid("00000000-0000-4000-8000-000000000000")
  {
    UuidOf("00000000", "0000", "4000", "8000", "000000000000");
    assert "00000000" + ['-'] + "0000" == "00000000-0000";
    assert "00000000-0000" + ['-'] + "4000" == "00000000-0000-4000";
    assert "00000000-0000-4000" + ['-'] + "8000" == "00000000-0000-4000-8000";
    assert "00000000-0000-4000-8000" + ['-'] + "000000000000" == "00000000-0000-4000-8000-000000000000";
  }

  lemma Ipv4Joined()
    ensures Join(["192", "0", "2", "0"], '.') == "192.0.2.0"
  {
    var parts, last := ["192", "0", "2", "0"], ["2", "0"];
    assert last[1..] == ["0"];
    assert Join(last, '.') == "2.0";
    assert parts[1..] == ["0"] + last && parts[1..][1..] == last;
    assert Join(parts[1..], '.') == "0.2.0";
  }

  lemma Ipv4Holds()
    ensures IsIpv4("192.0.2.0")
  {
    var parts := ["192", "0", "2", "0"];
    Ipv4Joined();
    OctetIs("192");
    OctetIs("0");
    OctetIs("2");
    NoDots(parts);
    SplitJoin(parts, '.');
  }

  lemma NoDots(parts: seq<string>)
    requires forall i | 0 <= i < |parts| :: Digits(parts[i])
    ensures forall p | p in parts :: '.' !in p
  {
    forall p | p in parts
      ensures '.' !in p
    {
      var i :| 0 <= i < |parts| && parts[i] == p;
    }
  }

  lemma OctetIs(s: string)
    requires s == "192" || s == "0" || s == "2"
    ensures IsOctet(s)
  {
    if s == "192" {
      assert s[..2] == "19" && s[..2][..1] == "1" && s[..2][..1][..0] == "";
      assert DigitsValue("1") == 1 && DigitsValue("19") == 19 && DigitsValue(s) == 192;
    } else {
      assert s[..0] == "";
    }
  }

  lemma HostnameHolds()
    ensures IsHostname("example.com")
  {
    var parts := ["example", "com"];
    assert parts[1..] == ["com"];
    assert Join(["com"], '.') == "com";
    assert Join(parts, '.') == "example" + ['.'] + "com";
    assert "example" + ['.'] + "com" == "example.com";
    LabelHolds("example");
    LabelHolds("com");
    SplitJoin(parts, '.');
  }

  lemma LabelHolds(s: string)
    requires s == "example" || s == "com"
    ensures IsLabel(s) && '.' !in s
  {
  }

  lemma Base64Holds()
    ensures IsBase64("ZXhhbXBsZQ==")
  {
    var s := "ZXhhbXBsZQ==";
    assert s[..|s| - 2] == "ZXhhbXBsZQ";
    assert Base64Chars(s[..|s| - 2]) && PaddedBy(s, 2);
  }

  /** What static mode writes for a string schema of that format, where nothing else decides. */
  function Placeholder(format: string): string {
    var v := StaticString(Obj(map["type" := Str("string"), "format" := Str(format)]));
    if v.Str? then v.s else ""
  }

  /**
   * The placeholder of static mode satisfies the check of the validator for every format, enforced or not, but for
   * `time`: it is written there with a zone, and the check allows none.
   */
  lemma PlaceholdersPass(ipv6: string -> bool, format: string)
    requires ipv6("2001:db8::")
    ensures Enforced(ipv6, format, Placeholder(format)) <==> format != "time"
  {
    match format
    case "email" => EmailPasses(ipv6);
    case "uri" => UriPasses(ipv6);
    case "uri-reference" => UriReferencePasses(ipv6);
    case "uuid" => UuidPasses(ipv6);
    case "date-time" => DateTimePasses(ipv6);
    case "date" => DatePasses(ipv6);
    case "time" => TimeFails(ipv6);
    case "ipv4" => Ipv4Passes(ipv6);
    case "ipv6" => Ipv6Passes(ipv6);
    case "hostname" => HostnamePasses(ipv6);
    case "byte" => BytePasses(ipv6);
    case _ =>
  }

  lemma PlaceholderIs(format: string)
    ensures Placeholder(format) == match CanonicalFormat(format) case Some(text) => text case None => ""
  {
  }

  lemma EmailPasses(ipv6: string -> bool)
    ensures Enforced(ipv6, "email", Placeholder("email"))
  {
    PlaceholderIs("email");
    assert CanonicalFormat("email") == Some("user@example.com");
    EmailHolds();
  }

  lemma UriPasses(ipv6: string -> bool)
    ensures Enforced(ipv6, "uri", Placeholder("uri"))
  {
    PlaceholderIs("uri");
    assert CanonicalFormat("uri") == Some("https://example.com");
    UriHolds();
  }

  lemma UriReferencePasses(ipv6: string -> bool)
    ensures Enforced(ipv6, "uri-reference", Placeholder("uri-reference"))
  {
    PlaceholderIs("uri-reference");
    assert CanonicalFormat("uri-reference") == Some("https://example.com");
    UriHolds();
  }

  lemma UuidPasses(ipv6: string -> bool)
    ensures Enforced(ipv6, "uuid", Placeholder("uuid"))
  {
    PlaceholderIs("uuid");
    assert CanonicalFormat("uuid") == Some("00000000-0000-4000-8000-000000000000");
    UuidHolds();
  }

  lemma DateTimePasses(ipv6: string -> bool)
    ensures Enforced(ipv6, "date-time", Placeholder("date-time"))
  {
    PlaceholderIs("date-time");
    assert CanonicalFormat("date-time") == Some("2020-01-01T00:00:00Z");
    DateTimeHolds();
  }

  lemma DatePasses(ipv6: string -> bool)
    ensures Enforced(ipv6, "date", Placeholder("date"))
  {
    PlaceholderIs("date");
    assert CanonicalFormat("date") == Some("2020-01-01");
    DateHolds();
  }

  lemma TimeFails(ipv6: string -> bool)
    ensures !Enforced(ipv6, "time", Placeholder("time"))
  {
    PlaceholderIs("time");
    assert CanonicalFormat("time") == Some("00:00:00Z");
  }

  lemma Ipv4Passes(ipv6: string -> bool)
    ensures Enforced(ipv6, "ipv4", Placeholder("ipv4"))
  {
    PlaceholderIs("ipv4");
    assert CanonicalFormat("ipv4") == Some("192.0.2.0");
    Ipv4Holds();
  }

  lemma Ipv6Passes(ipv6: string -> bool)
    requires ipv6("2001:db8::")
    ensures Enforced(ipv6, "ipv6", Placeholder("ipv6"))
  {
    PlaceholderIs("ipv6");
    assert CanonicalFormat("ipv6") == Some("2001:db8::");
  }

  lemma HostnamePasses(ipv6: string -> bool)
    ensures Enforced(ipv6, "hostname", Placeholder("hostname"))
  {
    PlaceholderIs("hostname");
    assert CanonicalFormat("hostname") == Some("example.com");
    HostnameHolds();
  }

  lemma BytePasses(ipv6: string -> bool)
    ensures Enforced(ipv6, "byte", Placeholder("byte"))
  {
    PlaceholderIs("byte");
    assert CanonicalFormat("byte") == Some("ZXhhbXBsZQ==");
    Base64Holds();
  }

  /** So the static value of a string schema with a format draws an error from the validator exactly for `time`. */
  lemma StaticFormatPasses(spec: Spec, ipv6: string -> bool, format: string, doc: Document, opts: Options,
                           depth: nat, loc: Location, field: string)
    requires ipv6("2001:db8::") && forall f, s :: spec.matchesFormat(f, s) <==> Enforced(ipv6, f, s)
    requires Founded(spec) && depth < opts.maxDepth
    ensures var schema := Schema(false, None, StringType([], None, None, None, Some(format)));
            var v := StaticValue(Obj(map["type" := Str("string"), "format" := Str(format)]), doc, opts, [], depth);
            Validate(spec, schema, v, loc, field) == if format == "time" then [Error(loc, field, FormatCode)] else []
  {
    PlaceholdersPass(ipv6, format);
    StaticTextIs(format, doc, opts, depth);
    FormatErrors(spec, format, Placeholder(format), loc, field);
  }

  lemma StaticTextIs(format: string, doc: Document, opts: Options, depth: nat)
    requires depth < opts.maxDepth
    ensures StaticValue(Obj(map["type" := Str("string"), "format" := Str(format)]), doc, opts, [], depth) ==
            Str(Placeholder(format))
  {
  }

  lemma FormatErrors(spec: Spec, format: string, s: string, loc: Location, field: string)
    requires Founded(spec)
    ensures Validate(spec, Schema(false, None, StringType([], None, None, None, Some(format))), Str(s), loc, field) ==
            if spec.matchesFormat(format, s) then [] else [Error(loc, field, FormatCode)]
  {
    var k := StringType([], None, None, None, Some(format));
    OnlyFormat(!spec.matchesFormat(format, s), loc, field);
    assert k.texts == [];
  }

  lemma OnlyFormat(wrong: bool, loc: Location, field: string)
    ensures Failing([Check(false, MinLengthCode), Check(false, MaxLengthCode), Check(false, PatternCode),
                     Check(wrong, FormatCode)], loc, field) ==
            if wrong then [Error(loc, field, FormatCode)] else []
  {
    var a, b, c, d := Check(false, MinLengthCode), Check(false, MaxLengthCode), Check(false, PatternCode),
                      Check(wrong, FormatCode);
    assert [d][1..] == [] && Failing([d], loc, field) == Complain(wrong, loc, field, FormatCode);
    assert [c, d][1..] == [d] && Failing([c, d], loc, field) == Failing([d], loc, field);
    assert [b, c, d][1..] == [c, d] && Failing([b, c, d], loc, field) == Failing([c, d], loc, field);
    assert [a, b, c, d][1..] == [b, c, d];
  }

  /** A format without a placeholder leaves the empty string, and is never enforced. */
  lemma UnknownFormatIsOpen(ipv6: string -> bool, format: string, s: string)
    requires CanonicalFormat(format).None?
    ensures Enforced(ipv6, format, s) && Placeholder(format) == ""
  {
  }
}
