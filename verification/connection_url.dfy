/**
  The part of `R2dbcConfig.connectionFactory` that takes the configured
  `r2dbc:mysql://host[:port]/database[?options]` URL apart into host, port
  and database name, built from the Java library calls it uses:
  `String.replace` (every occurrence, scanning left to right),
  `String.split` on a single literal char (no match gives the whole string;
  otherwise the pieces, with trailing empty pieces dropped), array indexing
  that throws `ArrayIndexOutOfBoundsException`, and `Integer.parseInt`.
 */
module ConnectionUrl {
  import opened Common

  /** The text removed from the URL before it is split. */
  const SCHEME: string := "r2dbc:mysql://"

  /** The port used when the URL names none (MySQL's). */
  const DEFAULT_PORT: int := 3306

  /** Bounds of a Java `int`. */
  const INT_MIN: int := -0x8000_0000
  const INT_MAX: int := 0x7fff_ffff

  // ------------------------------------------------------------ String.replace(SCHEME, "")

  /** `SCHEME` occurs in `s` starting at index `i`. */
  predicate MatchAt(s: string, i: int) {
    0 <= i && i + |SCHEME| <= |s| && s[i..i + |SCHEME|] == SCHEME
  }

  /**
    `s.replace(SCHEME, "")`: every occurrence found scanning left to right is
    cut out, so the text never grows. Which text goes is stated by the lemmas
    that follow.
   */
  function RemoveScheme(s: string): (r: string)
    ensures |r| <= |s|
    decreases |s|
  {
    if |s| < |SCHEME| then s
    else if s[..|SCHEME|] == SCHEME then RemoveScheme(s[|SCHEME|..])
    else [s[0]] + RemoveScheme(s[1..])
  }

  /** No occurrence among the first `n` positions of `s` means none among the first `n - 1` of its tail. */
  lemma NoMatchInTail(s: string, n: nat)
    requires 0 < n <= |s|
    requires forall i :: 0 <= i < n ==> !MatchAt(s, i)
    ensures forall i :: 0 <= i < n - 1 ==> !MatchAt(s[1..], i)
  {
    var t := s[1..];
    forall i | 0 <= i < n - 1 ensures !MatchAt(t, i) {
      assert !MatchAt(s, i + 1);
      if i + |SCHEME| <= |t| {
        assert forall k :: i <= k < i + |SCHEME| ==> t[k] == s[k + 1];
        assert t[i..i + |SCHEME|] == s[i + 1..i + 1 + |SCHEME|];
      }
    }
  }

  /** Text before the first occurrence is kept as it is. */
  lemma {:induction false} RemoveSchemeKeepsUnmatched(s: string, n: nat)
    requires n <= |s|
    requires forall i :: 0 <= i < n ==> !MatchAt(s, i)
    ensures RemoveScheme(s) == s[..n] + RemoveScheme(s[n..])
    decreases n
  {
    if n > 0 {
      assert !MatchAt(s, 0);
      if |s| < |SCHEME| {
        assert s[..n] + s[n..] == s;
      } else {
        assert s[..|SCHEME|] != SCHEME;
        var t := s[1..];
        NoMatchInTail(s, n);
        RemoveSchemeKeepsUnmatched(t, n - 1);
        assert t[..n - 1] == s[1..n] && t[n - 1..] == s[n..];
        assert [s[0]] + s[1..n] == s[..n];
      }
    }
  }

  /**
    The first occurrence of `SCHEME`, wherever it stands and not only at
    the front, is cut out, and the scan resumes right after it.
   */
  lemma RemoveSchemeCutsFirstMatch(s: string, n: nat)
    requires MatchAt(s, n)
    requires forall i :: 0 <= i < n ==> !MatchAt(s, i)
    ensures RemoveScheme(s) == s[..n] + RemoveScheme(s[n + |SCHEME|..])
  {
    RemoveSchemeKeepsUnmatched(s, n);
    var t := s[n..];
    assert t[..|SCHEME|] == SCHEME;
    assert t[|SCHEME|..] == s[n + |SCHEME|..];
  }

  /** A string in which `SCHEME` does not occur comes back unchanged. */
  lemma RemoveSchemeWithoutMatch(s: string)
    requires forall i :: !MatchAt(s, i)
    ensures RemoveScheme(s) == s
  {
    RemoveSchemeKeepsUnmatched(s, |s|);
    assert s[|s|..] == [];
    assert s[..|s|] == s;
  }

  /** No two adjacent '/' start before index `n`. */
  predicate NoDoubleSlashBefore(s: string, n: int) {
    forall j :: 0 <= j < n && j + 1 < |s| ==> !(s[j] == '/' && s[j + 1] == '/')
  }

  /** `SCHEME` holds "//" at offset 12, so no occurrence starts where no "//" follows 12 chars later. */
  lemma NoDoubleSlashNoMatch(s: string, n: int)
    requires NoDoubleSlashBefore(s, n + 12)
    ensures forall i :: i < n ==> !MatchAt(s, i)
  {
    forall i | i < n ensures !MatchAt(s, i) {
      if 0 <= i && i + |SCHEME| <= |s| {
        assert !(s[i + 12] == '/' && s[i + 13] == '/');
        assert s[i..i + |SCHEME|][12] == s[i + 12] && s[i..i + |SCHEME|][13] == s[i + 13];
        assert SCHEME[12] == '/' && SCHEME[13] == '/';
      }
    }
  }

  // ------------------------------------------------------------ String.split(c)

  /** The pieces of `s` between occurrences of `c`, empty pieces included. */
  function SplitRaw(s: string, c: char): (r: seq<string>)
    ensures |r| >= 1
  {
    if |s| == 0 then [""]
    else
      var rest := SplitRaw(s[1..], c);
      if s[0] == c then [""] + rest else [[s[0]] + rest[0]] + rest[1..]
  }

  /** The pieces glued back together with `c` in between. */
  function Join(pieces: seq<string>, c: char): string
    requires |pieces| >= 1
  {
    if |pieces| == 1 then pieces[0] else pieces[0] + [c] + Join(pieces[1..], c)
  }

  /** No piece contains the separator. */
  predicate SeparatorFree(pieces: seq<string>, c: char) {
    forall i :: 0 <= i < |pieces| ==> c !in pieces[i]
  }

  /** Splitting loses nothing: the pieces are free of `c` and joining them gives `s` back. */
  lemma {:induction false} JoinSplit(s: string, c: char)
    ensures SeparatorFree(SplitRaw(s, c), c)
    ensures Join(SplitRaw(s, c), c) == s
  {
    if |s| > 0 {
      var rest := SplitRaw(s[1..], c);
      JoinSplit(s[1..], c);
      if s[0] == c {
        assert SplitRaw(s, c)[1..] == rest;
        assert s == [c] + s[1..];
      } else {
        var r := SplitRaw(s, c);
        assert r[1..] == rest[1..];
        if |rest| > 1 {
          assert rest == [rest[0]] + rest[1..];
          assert Join(rest, c) == rest[0] + [c] + Join(rest[1..], c);
        }
        assert s == [s[0]] + s[1..];
      }
    }
  }

  /** Text free of `c` in front of a string extends the first piece. */
  lemma {:induction false} SplitWithFreePrefix(a: string, s: string, c: char)
    requires c !in a
    ensures SplitRaw(a + s, c) == [a + SplitRaw(s, c)[0]] + SplitRaw(s, c)[1..]
  {
    if |a| > 0 {
      SplitWithFreePrefix(a[1..], s, c);
      assert (a + s)[1..] == a[1..] + s;
      assert [a[0]] + (a[1..] + SplitRaw(s, c)[0]) == a + SplitRaw(s, c)[0];
    } else {
      assert a + s == s;
      assert a + SplitRaw(s, c)[0] == SplitRaw(s, c)[0];
      assert [SplitRaw(s, c)[0]] + SplitRaw(s, c)[1..] == SplitRaw(s, c);
    }
  }

  /** Joining pieces free of `c` and splitting again gives the same pieces. */
  lemma {:induction false} SplitJoin(pieces: seq<string>, c: char)
    requires |pieces| >= 1 && SeparatorFree(pieces, c)
    ensures SplitRaw(Join(pieces, c), c) == pieces
  {
    if |pieces| == 1 {
      SplitWithFreePrefix(pieces[0], "", c);
      assert pieces[0] + "" == pieces[0];
    } else {
      var tail := Join(pieces[1..], c);
      SplitJoin(pieces[1..], c);
      SplitWithFreePrefix(pieces[0], [c] + tail, c);
      assert pieces[0] + [c] + tail == pieces[0] + ([c] + tail);
      assert ([c] + tail)[1..] == tail;
      assert SplitRaw([c] + tail, c) == [""] + SplitRaw(tail, c);
      assert pieces[0] + "" == pieces[0];
      assert pieces == [pieces[0]] + pieces[1..];
    }
  }

  /** A char absent from `s` is absent from every piece of it. */
  lemma {:induction false} SplitPiecesLackAbsent(s: string, c: char, d: char)
    requires d !in s
    ensures forall i :: 0 <= i < |SplitRaw(s, c)| ==> d !in SplitRaw(s, c)[i]
  {
    if |s| > 0 {
      SplitPiecesLackAbsent(s[1..], c, d);
      assert s == [s[0]] + s[1..];
    }
  }

  /** Drops the trailing empty strings. */
  function DropTrailingEmpty(xs: seq<string>): (r: seq<string>)
    ensures |r| <= |xs| && r == xs[..|r|]
    ensures forall i :: |r| <= i < |xs| ==> xs[i] == ""
    ensures |r| > 0 ==> r[|r| - 1] != ""
  {
    if |xs| > 0 && xs[|xs| - 1] == "" then DropTrailingEmpty(xs[..|xs| - 1]) else xs
  }

  /**
    `s.split(c)` for a char `c` the regex engine takes literally: no match
    gives `{s}`; otherwise the pieces with the trailing empty ones dropped.
   */
  function JavaSplit(s: string, c: char): (r: seq<string>)
    ensures c !in s ==> r == [s]
    ensures c in s ==> SeparatorFree(r, c)
    ensures c in s ==> |r| <= |SplitRaw(s, c)| && forall i :: 0 <= i < |r| ==> r[i] == SplitRaw(s, c)[i]
    ensures c in s ==> forall i :: |r| <= i < |SplitRaw(s, c)| ==> SplitRaw(s, c)[i] == ""
    ensures c in s && |r| > 0 ==> r[|r| - 1] != ""
  {
    if c !in s then [s]
    else
      JoinSplit(s, c);
      DropTrailingEmpty(SplitRaw(s, c))
  }

  /** Only the trailing empty pieces go: a non-empty last piece keeps all of them. */
  lemma JavaSplitKeepsPieces(s: string, c: char)
    requires SplitRaw(s, c)[|SplitRaw(s, c)| - 1] != ""
    ensures JavaSplit(s, c) == SplitRaw(s, c)
  {
    JoinSplit(s, c);
  }

  // ------------------------------------------------------------ Integer.parseInt

  predicate IsDigit(ch: char) {
    '0' <= ch <= '9'
  }

  predicate AllDigits(s: string) {
    forall i :: 0 <= i < |s| ==> IsDigit(s[i])
  }

  /** The value of a string of ASCII decimal digits. */
  function DigitsValue(s: string): nat
    requires AllDigits(s)
  {
    if |s| == 0 then 0 else DigitsValue(s[..|s| - 1]) * 10 + (s[|s| - 1] as int - '0' as int)
  }

  /** `Integer.parseInt(s)` over ASCII digits: an optional sign, at least one digit, a value that fits an `int`. */
  function ParseInt(s: string): (r: Option<int>)
    ensures r.Some? ==> INT_MIN <= r.value <= INT_MAX
    ensures r.Some? ==> |s| > 0 && (AllDigits(s) || (|s| > 1 && (s[0] == '-' || s[0] == '+') && AllDigits(s[1..])))
    ensures |s| > 0 && AllDigits(s) ==>
      r == if DigitsValue(s) <= INT_MAX then Some(DigitsValue(s)) else None
    ensures |s| > 1 && s[0] == '+' && AllDigits(s[1..]) ==>
      r == if DigitsValue(s[1..]) <= INT_MAX then Some(DigitsValue(s[1..])) else None
    ensures |s| > 1 && s[0] == '-' && AllDigits(s[1..]) ==>
      r == if DigitsValue(s[1..]) <= -INT_MIN then Some(-(DigitsValue(s[1..]) as int)) else None
  {
    if |s| == 0 then None
    else
      var signed := s[0] == '-' || s[0] == '+';
      var digits := if signed then s[1..] else s;
      if |digits| == 0 || !AllDigits(digits) then None
      else
        var v: int := if s[0] == '-' then -(DigitsValue(digits) as int) else DigitsValue(digits);
        if INT_MIN <= v <= INT_MAX then Some(v) else None
  }

  /** The usual decimal spelling of `n`, without sign or leading zeros. */
  function Decimal(n: nat): (r: string)
    ensures |r| > 0 && AllDigits(r)
  {
    if n < 10 then [('0' as int + n) as char] else Decimal(n / 10) + [('0' as int + n % 10) as char]
  }

  /** Reading back a decimal spelling gives the number. */
  lemma {:induction false} DigitsValueOfDecimal(n: nat)
    ensures DigitsValue(Decimal(n)) == n
  {
    var d := Decimal(n);
    if n >= 10 {
      DigitsValueOfDecimal(n / 10);
      assert d[..|d| - 1] == Decimal(n / 10);
    }
  }

  /** `Integer.parseInt` reads back every `int` from 0 up written in decimal. */
  lemma ParseIntOfDecimal(n: nat)
    requires n <= INT_MAX
    ensures ParseInt(Decimal(n)) == Some(n)
  {
    DigitsValueOfDecimal(n);
  }

  /** A leading '0' does not change the value of a digit string. */
  lemma {:induction false} DigitsValueLeadingZero(s: string)
    requires AllDigits(s)
    ensures AllDigits("0" + s) && DigitsValue("0" + s) == DigitsValue(s)
    decreases |s|
  {
    var z := "0" + s;
    if |s| > 0 {
      DigitsValueLeadingZero(s[..|s| - 1]);
      assert z[..|z| - 1] == "0" + s[..|s| - 1];
    }
  }

  /** `Integer.parseInt` reads a zero-padded spelling like the unpadded one, `"03306"` like `"3306"`. */
  lemma ParseIntLeadingZero(s: string)
    requires |s| > 0 && AllDigits(s)
    ensures ParseInt("0" + s) == ParseInt(s)
  {
    DigitsValueLeadingZero(s);
  }

  /** A leading '+' changes nothing: `"+80"` reads like `"80"`. */
  lemma ParseIntPlusSign(s: string)
    requires |s| > 0 && AllDigits(s)
    ensures ParseInt("+" + s) == ParseInt(s)
  {
    assert ("+" + s)[1..] == s;
  }

  /** Every negative `int`, written with '-', reads back as itself, `-2147483648` included. */
  lemma ParseIntOfNegativeDecimal(n: nat)
    requires 0 < n <= -INT_MIN
    ensures ParseInt("-" + Decimal(n)) == Some(-(n as int))
  {
    DigitsValueOfDecimal(n);
    assert ("-" + Decimal(n))[1..] == Decimal(n);
  }

  // ------------------------------------------------------------ the parser

  /** The exceptions the parsing lines can throw. */
  datatype ParseError = IndexOutOfBounds | NumberFormat

  /** What the connection factory is built from. */
  datatype Settings = Settings(host: string, port: int, database: string)

  datatype Parsed = Parsed(settings: Settings) | Thrown(error: ParseError)

  /** Lines 28-35 of `R2dbcConfig.connectionFactory`. */
  function Parse(url: string): (r: Parsed)
    ensures r.Parsed? ==>
      && ':' !in r.settings.host && '/' !in r.settings.host
      && '/' !in r.settings.database && '?' !in r.settings.database
      && INT_MIN <= r.settings.port <= INT_MAX
  {
    ParseParts(JavaSplit(RemoveScheme(url), '/'))
  }

  /** Lines 30-35: `parts[1]` cut at the first '?' is the database, `parts[0]` holds host and port. */
  function ParseParts(parts: seq<string>): (r: Parsed)
    requires SeparatorFree(parts, '/')
    ensures r.Parsed? ==>
      && ':' !in r.settings.host && '/' !in r.settings.host
      && '/' !in r.settings.database && '?' !in r.settings.database
      && INT_MIN <= r.settings.port <= INT_MAX
  {
    if |parts| < 2 then Thrown(IndexOutOfBounds)
    else
      var databaseParts := JavaSplit(parts[1], '?');
      SplitPiecesLackAbsent(parts[1], '?', '/');
      SplitPiecesLackAbsent(parts[0], ':', '/');
      if |databaseParts| == 0 then Thrown(IndexOutOfBounds)
      else ParseHostPort(JavaSplit(parts[0], ':'), databaseParts[0])
  }

  /** Lines 33-35: the host before the first ':', the port after it or 3306. */
  function ParseHostPort(hostPortParts: seq<string>, database: string): (r: Parsed)
    ensures r.Parsed? ==> r.settings.database == database && INT_MIN <= r.settings.port <= INT_MAX
    ensures r.Parsed? ==> |hostPortParts| > 0 && r.settings.host == hostPortParts[0]
  {
    if |hostPortParts| == 0 then Thrown(IndexOutOfBounds)
    else if |hostPortParts| > 1 then
      match ParseInt(hostPortParts[1])
      case None => Thrown(NumberFormat)
      case Some(port) => Parsed(Settings(hostPortParts[0], port, database))
    else Parsed(Settings(hostPortParts[0], DEFAULT_PORT, database))
  }

  // ------------------------------------------------------------ what the parser promises

  /** A configuration URL: `SCHEME`, the host, an optional `:port`, '/', the database, an optional `?options`. */
  function Format(host: string, port: Option<nat>, database: string, options: Option<string>): string {
    SCHEME + HostPort(host, port) + "/" + DatabasePart(database, options)
  }

  function HostPort(host: string, port: Option<nat>): string {
    if port.Some? then host + ":" + Decimal(port.value) else host
  }

  function DatabasePart(database: string, options: Option<string>): string {
    if options.Some? then database + "?" + options.value else database
  }

  /**
    The URLs the parser reads back: no separator inside host or database, a
    database name, an `int` port, and options without "//" (a single '/', as
    in `serverTimezone=Europe/Madrid`, is allowed).
   */
  predicate WellShaped(host: string, port: Option<nat>, database: string, options: Option<string>) {
    && ':' !in host && '/' !in host
    && |database| > 0 && '/' !in database && '?' !in database
    && (port.Some? ==> port.value <= INT_MAX)
    && (options.Some? ==> NoDoubleSlashBefore(options.value, |options.value|))
  }

  /** Gluing a string without '/' in front keeps a string free of "//". */
  lemma NoDoubleSlashAfterFree(a: string, b: string)
    requires '/' !in a && NoDoubleSlashBefore(b, |b|)
    ensures NoDoubleSlashBefore(a + b, |a + b|)
  {
    var s := a + b;
    forall j | 0 <= j < |s| && j + 1 < |s| ensures !(s[j] == '/' && s[j + 1] == '/') {
      if j < |a| {
        assert s[j] == a[j];
      } else {
        assert s[j] == b[j - |a|] && s[j + 1] == b[j + 1 - |a|];
      }
    }
  }

  /** A '/' followed by a string without '/' holds no "//". */
  lemma SlashThenFree(x: string)
    requires '/' !in x
    ensures NoDoubleSlashBefore("/" + x, |"/" + x|)
  {
    var body := "/" + x;
    forall j | 0 <= j < |body| && j + 1 < |body| ensures !(body[j] == '/' && body[j + 1] == '/') {
      assert body[j + 1] == x[j];
    }
  }

  /** A host with an optional decimal port holds no '/'. */
  lemma HostPortNoSlash(host: string, port: Option<nat>)
    requires '/' !in host
    ensures '/' !in HostPort(host, port)
  {
    if port.Some? {
      var d := Decimal(port.value);
      assert forall k :: 0 <= k < |d| ==> d[k] != '/';
      assert HostPort(host, port) == host + (":" + d);
    }
  }

  /** A string free of "//" is left as it is. */
  lemma RemoveSchemeFree(s: string)
    requires NoDoubleSlashBefore(s, |s|)
    ensures RemoveScheme(s) == s
  {
    NoDoubleSlashNoMatch(s, |s|);
    RemoveSchemeWithoutMatch(s);
  }

  /** A leading `SCHEME` is cut. */
  lemma RemoveSchemeLeading(s: string)
    ensures RemoveScheme(SCHEME + s) == RemoveScheme(s)
  {
    var t := SCHEME + s;
    assert t[..|SCHEME|] == SCHEME;
    assert t[|SCHEME|..] == s;
  }

  /** `SCHEME` after text without '/' is cut as well, and the text in front stays. */
  lemma RemoveSchemeInside(a: string, b: string)
    requires '/' !in a
    ensures RemoveScheme(a + SCHEME + b) == a + RemoveScheme(b)
  {
    var u := a + SCHEME + b;
    assert NoDoubleSlashBefore(u, |a| + 12) by {
      forall j | 0 <= j < |a| + 12 && j + 1 < |u| ensures !(u[j] == '/' && u[j + 1] == '/') {
        if j < |a| {
          assert u[j] == a[j];
        } else {
          assert u[j] == SCHEME[j - |a|];
          assert SCHEME[..12] == "r2dbc:mysql:";
          assert SCHEME[j - |a|] == SCHEME[..12][j - |a|];
        }
      }
    }
    NoDoubleSlashNoMatch(u, |a|);
    assert MatchAt(u, |a|) by { assert u[|a|..|a| + |SCHEME|] == SCHEME; }
    RemoveSchemeCutsFirstMatch(u, |a|);
    assert u[..|a|] == a && u[|a| + |SCHEME|..] == b;
  }

  /** With no '/' in `a` and no "//" in `b`, `SCHEME` first, inside or not at all removes to `a + b`. */
  lemma RemoveSchemeAround(a: string, b: string)
    requires '/' !in a && NoDoubleSlashBefore(b, |b|)
    ensures RemoveScheme(a + b) == a + b
    ensures RemoveScheme(SCHEME + a + b) == a + b
    ensures RemoveScheme(a + SCHEME + b) == a + b
  {
    NoDoubleSlashAfterFree(a, b);
    RemoveSchemeFree(a + b);
    RemoveSchemeLeading(a + b);
    assert SCHEME + a + b == SCHEME + (a + b);
    RemoveSchemeFree(b);
    RemoveSchemeInside(a, b);
  }

  /** Two pieces free of `c`, the second not empty, around one `c`. */
  lemma JavaSplitTwo(a: string, b: string, c: char)
    requires c !in a && c !in b && |b| > 0
    ensures JavaSplit(a + [c] + b, c) == [a, b]
  {
    assert Join([a, b], c) == a + [c] + b;
    SplitJoin([a, b], c);
    JavaSplitKeepsPieces(a + [c] + b, c);
  }

  /** The first piece, when it is free of `c` and not empty, is what `split(c)[0]` yields. */
  lemma JavaSplitFirst(a: string, b: string, c: char)
    requires c !in a && |a| > 0
    ensures |JavaSplit(a + [c] + b, c)| > 0 && JavaSplit(a + [c] + b, c)[0] == a
  {
    SplitWithFreePrefix(a, [c] + b, c);
    assert a + [c] + b == a + ([c] + b);
    assert (a + [c] + b)[|a|] == c;
    assert SplitRaw([c] + b, c)[0] == "" by {
      assert ([c] + b)[1..] == b;
    }
    assert a + "" == a;
    var raw := SplitRaw(a + [c] + b, c);
    assert raw[0] == a;
    assert 0 < |JavaSplit(a + [c] + b, c)| by {
      assert raw[0] != "";
    }
  }

  /** A piece free of `c` followed by one `c`: the trailing empty piece is dropped. */
  lemma JavaSplitTrailing(a: string, c: char)
    requires c !in a
    ensures JavaSplit(a + [c], c) == if |a| > 0 then [a] else []
  {
    assert Join([a, ""], c) == a + [c];
    SplitJoin([a, ""], c);
  }

  /** The host-and-port piece of a well-shaped URL is read back. */
  lemma ParseHostPortFormat(host: string, port: Option<nat>, database: string)
    requires ':' !in host && (port.Some? ==> port.value <= INT_MAX)
    ensures ParseHostPort(JavaSplit(HostPort(host, port), ':'), database)
      == Parsed(Settings(host, if port.Some? then port.value else DEFAULT_PORT, database))
  {
    if port.Some? {
      var d := Decimal(port.value);
      assert ':' !in d by { assert forall k :: 0 <= k < |d| ==> d[k] != ':'; }
      assert HostPort(host, port) == host + [':'] + d;
      JavaSplitTwo(host, d, ':');
      ParseIntOfDecimal(port.value);
    }
  }

  /** Two pieces free of `c`, the second not empty, then anything: the split starts with the first piece and the second extended by the first piece of the rest. */
  lemma JavaSplitFirstTwo(a: string, b: string, rest: string, c: char)
    requires c !in a && c !in b && |b| > 0
    ensures var parts := JavaSplit(a + [c] + b + rest, c);
      |parts| >= 2 && parts[0] == a && parts[1] == b + SplitRaw(rest, c)[0]
  {
    var s := a + [c] + b + rest;
    var u := b + rest;
    assert s == a + ([c] + u);
    assert s[|a|] == c;
    SplitWithFreePrefix(a, [c] + u, c);
    assert ([c] + u)[1..] == u;
    assert SplitRaw([c] + u, c) == [""] + SplitRaw(u, c);
    SplitWithFreePrefix(b, rest, c);
    var raw := SplitRaw(s, c);
    assert a + "" == a;
    assert raw[0] == a && raw[1] == b + SplitRaw(rest, c)[0];
    assert raw[1] != "";
  }

  /** `'/'` followed by a database name and `?options` without "//" holds no "//". */
  lemma DatabaseOptionsFree(database: string, opt: string)
    requires |database| > 0 && '/' !in database
    requires NoDoubleSlashBefore(opt, |opt|)
    ensures NoDoubleSlashBefore("/" + database + "?" + opt, |"/" + database + "?" + opt|)
  {
    var body := "/" + database + "?" + opt;
    var d := |database|;
    forall j | 0 <= j < |body| && j + 1 < |body| ensures !(body[j] == '/' && body[j + 1] == '/') {
      if j < d {
        assert body[j + 1] == database[j];
      } else if j == d {
        assert body[j + 1] == '?';
      } else if j == d + 1 {
        assert body[j] == '?';
      } else {
        assert body[j] == opt[j - d - 2] && body[j + 1] == opt[j - d - 1];
      }
    }
  }

  /** `'/'` and the database part of a well-shaped URL hold no "//". */
  lemma DatabasePartFree(database: string, options: Option<string>)
    requires |database| > 0 && '/' !in database
    requires options.Some? ==> NoDoubleSlashBefore(options.value, |options.value|)
    ensures NoDoubleSlashBefore("/" + DatabasePart(database, options), |"/" + DatabasePart(database, options)|)
  {
    if options.Some? {
      DatabaseOptionsFree(database, options.value);
      assert "/" + DatabasePart(database, options) == "/" + database + "?" + options.value;
    } else {
      SlashThenFree(database);
    }
  }

  /** The first two '/'-pieces of what remains of a well-shaped URL: host-and-port, then a piece whose text before '?' is the database. */
  lemma DatabasePieceFormat(hp: string, database: string, options: Option<string>)
    requires '/' !in hp
    requires |database| > 0 && '/' !in database && '?' !in database
    ensures var parts := JavaSplit(hp + ['/'] + DatabasePart(database, options), '/');
      && |parts| >= 2 && parts[0] == hp
      && |JavaSplit(parts[1], '?')| > 0 && JavaSplit(parts[1], '?')[0] == database
  {
    if options.None? {
      JavaSplitTwo(hp, database, '/');
      assert JavaSplit(database, '?') == [database];
    } else {
      var x := database + ['?'];
      assert hp + ['/'] + DatabasePart(database, options) == hp + ['/'] + x + options.value;
      JavaSplitFirstTwo(hp, x, options.value, '/');
      var r0 := SplitRaw(options.value, '/')[0];
      assert x + r0 == database + ['?'] + r0;
      JavaSplitFirst(database, r0, '?');
    }
  }

  /** A leading `SCHEME` in front of '/'-free text, '/' and text without "//" is all `replace` cuts. */
  lemma RemoveSchemeFront(hp: string, dp: string)
    requires '/' !in hp && NoDoubleSlashBefore("/" + dp, |"/" + dp|)
    ensures RemoveScheme(SCHEME + hp + "/" + dp) == hp + ['/'] + dp
  {
    var body := "/" + dp;
    RemoveSchemeAround(hp, body);
    assert SCHEME + hp + "/" + dp == SCHEME + hp + body;
    assert hp + body == hp + ['/'] + dp;
  }

  /** What is left of a well-shaped URL once `SCHEME` is removed. */
  lemma RemoveSchemeFormat(host: string, port: Option<nat>, database: string, options: Option<string>)
    requires WellShaped(host, port, database, options)
    ensures '/' !in HostPort(host, port)
    ensures RemoveScheme(Format(host, port, database, options))
      == HostPort(host, port) + ['/'] + DatabasePart(database, options)
  {
    HostPortNoSlash(host, port);
    DatabasePartFree(database, options);
    RemoveSchemeFront(HostPort(host, port), DatabasePart(database, options));
  }

  /** Every well-shaped URL is read back as the host, port (3306 when absent) and database written into it. */
  lemma ParseFormat(host: string, port: Option<nat>, database: string, options: Option<string>)
    requires WellShaped(host, port, database, options)
    ensures Parse(Format(host, port, database, options))
      == Parsed(Settings(host, if port.Some? then port.value else DEFAULT_PORT, database))
  {
    var hp := HostPort(host, port);
    var dp := DatabasePart(database, options);
    RemoveSchemeFormat(host, port, database, options);
    var parts := JavaSplit(hp + ['/'] + dp, '/');
    DatabasePieceFormat(hp, database, options);
    assert ParseParts(parts) == ParseHostPort(JavaSplit(hp, ':'), database);
    ParseHostPortFormat(host, port, database);
  }

  /** A URL without a database part, with or without the '/', fails on `parts[1]`. */
  lemma ParseWithoutDatabaseFails(hostPort: string)
    requires '/' !in hostPort
    ensures Parse(SCHEME + hostPort) == Thrown(IndexOutOfBounds)
    ensures Parse(SCHEME + hostPort + "/") == Thrown(IndexOutOfBounds)
  {
    RemoveSchemeAround(hostPort, "");
    assert SCHEME + hostPort + "" == SCHEME + hostPort && hostPort + "" == hostPort;
    RemoveSchemeAround(hostPort, "/");
    JavaSplitTrailing(hostPort, '/');
    assert hostPort + "/" == hostPort + ['/'];
  }

  /** A URL `SCHEME + hp + "/" + database` reaches the host-and-port step with `hp` split at ':'. */
  lemma ParseOneSlash(hp: string, database: string)
    requires '/' !in hp
    requires |database| > 0 && '/' !in database && '?' !in database
    ensures Parse(SCHEME + hp + "/" + database) == ParseHostPort(JavaSplit(hp, ':'), database)
  {
    var body := "/" + database;
    SlashThenFree(database);
    RemoveSchemeAround(hp, body);
    assert SCHEME + hp + "/" + database == SCHEME + hp + body;
    assert hp + body == hp + ['/'] + database;
    JavaSplitTwo(hp, database, '/');
    assert JavaSplit(database, '?') == [database];
  }

  /** `host:` with nothing after the ':' also gets port 3306, because `split` drops the empty piece. */
  lemma ParseEmptyPortDefaults(host: string, database: string)
    requires |host| > 0 && ':' !in host && '/' !in host
    requires |database| > 0 && '/' !in database && '?' !in database
    ensures Parse(SCHEME + host + ":/" + database) == Parsed(Settings(host, DEFAULT_PORT, database))
  {
    var hp := host + ":";
    assert SCHEME + host + ":/" + database == SCHEME + hp + "/" + database;
    ParseOneSlash(hp, database);
    assert hp == host + [':'];
    JavaSplitTrailing(host, ':');
  }

  /** A port that `Integer.parseInt` rejects stops the parse with `NumberFormatException`. */
  lemma ParseBadPortFails(host: string, portText: string, database: string)
    requires ':' !in host && '/' !in host
    requires |portText| > 0 && ':' !in portText && '/' !in portText && ParseInt(portText).None?
    requires |database| > 0 && '/' !in database && '?' !in database
    ensures Parse(SCHEME + host + ":" + portText + "/" + database) == Thrown(NumberFormat)
  {
    var hp := host + ":" + portText;
    assert '/' !in hp by { assert hp == host + (":" + portText); }
    assert SCHEME + host + ":" + portText + "/" + database == SCHEME + hp + "/" + database;
    ParseOneSlash(hp, database);
    assert hp == host + [':'] + portText;
    JavaSplitTwo(host, portText, ':');
  }

  /**
    `replace` is not a prefix strip: text in front of `SCHEME` stays, so it
    lands in the host part and the URL reads as if it had been written there.
   */
  lemma ParseIgnoresSchemePosition(a: string, rest: string)
    requires '/' !in a && NoDoubleSlashBefore(rest, |rest|)
    ensures Parse(a + SCHEME + rest) == Parse(SCHEME + a + rest)
    ensures Parse(a + SCHEME + rest) == Parse(a + rest)
  {
    RemoveSchemeAround(a, rest);
  }
}
