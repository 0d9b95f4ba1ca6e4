/**
 * Sign-in messages: the printer and the parser of packages/chain/src/siws.ts (the ERC-4361 message
 * format in its Solana wording).
 */
module Siws {
  import opened Money
  import Addresses

  datatype Fields = Fields(
    domain: string, address: string, uri: Option<string>, version: Option<string>, chainId: string,
    nonce: string, issuedAt: string, expirationTime: string, statement: Option<string>)

  datatype Parsed = Parsed(
    domain: string, address: string, nonce: string, issuedAt: string, expirationTime: string, chainId: string)

  datatype Error = TooFewLines | BadHeader | InvalidAddress | MissingField(prefix: string)

  datatype Result<+T> = Ok(value: T) | Err(error: Error)

  const WANTS := " wants you to sign in " + "with your Solana account:"
  const DEFAULT_STATEMENT := "Sign in to Catesino. This " + "proves wallet ownership " + "and does not spend funds."
  const NONCE := "Nonce: "
  const ISSUED_AT := "Issued At: "
  const EXPIRATION_TIME := "Expiration Time: "
  const CHAIN_ID := "Chain ID: "

  // ---------------------------------------------------------------- strings and lines

  predicate StartsWith(s: string, p: string) {
    |p| <= |s| && s[..|p|] == p
  }

  /** The white space and line terminators that trim removes. */
  predicate IsSpace(c: char) {
    || '\t' <= c <= '\r' || c == ' ' || c == '\U{00A0}' || c == '\U{1680}' || '\U{2000}' <= c <= '\U{200A}'
    || c == '\U{2028}' || c == '\U{2029}' || c == '\U{202F}' || c == '\U{205F}' || c == '\U{3000}' || c == '\U{FEFF}'
  }

  function TrimStart(s: string): string {
    if |s| > 0 && IsSpace(s[0]) then TrimStart(s[1..]) else s
  }

  function TrimEnd(s: string): string {
    if |s| > 0 && IsSpace(s[|s| - 1]) then TrimEnd(s[..|s| - 1]) else s
  }

  function Trim(s: string): string { TrimEnd(TrimStart(s)) }

  function FirstBreak(s: string): (i: nat)
    ensures i <= |s|
    ensures '\n' !in s[..i]
    ensures i < |s| ==> s[i] == '\n'
  {
    if |s| == 0 || s[0] == '\n' then 0 else 1 + FirstBreak(s[1..])
  }

  function Split(s: string): seq<string> {
    var i := FirstBreak(s);
    if i == |s| then [s] else [s[..i]] + Split(s[i + 1..])
  }

  function JoinLines(lines: seq<string>): string
    requires |lines| > 0
  {
    if |lines| == 1 then lines[0] else lines[0] + "\n" + JoinLines(lines[1..])
  }

  /** The characters that `.` does not match. */
  predicate IsLineTerminator(c: char) {
    c == '\n' || c == '\r' || c == '\U{2028}' || c == '\U{2029}'
  }

  predicate OneLine(s: string) {
    forall i :: 0 <= i < |s| ==> !IsLineTerminator(s[i])
  }

  // ---------------------------------------------------------------- printing

  function Header(f: Fields): string { f.domain + WANTS }

  function StatementOf(f: Fields): string {
    if f.statement.Some? then f.statement.value else DEFAULT_STATEMENT
  }

  function UriOf(f: Fields): string {
    if f.uri.Some? then f.uri.value else "https://" + f.domain
  }

  function VersionOf(f: Fields): string {
    if f.version.Some? then f.version.value else "1"
  }

  function Lines(f: Fields): (lines: seq<string>)
    ensures |lines| == 11
  {
    [Header(f), f.address, "", StatementOf(f), "", "URI: " + UriOf(f), "Version: " + VersionOf(f),
     CHAIN_ID + f.chainId, NONCE + f.nonce, ISSUED_AT + f.issuedAt, EXPIRATION_TIME + f.expirationTime]
  }

  function Build(f: Fields): Result<string> {
    if !Addresses.IsValidSolanaPubkey(f.address) then Err(InvalidAddress) else Ok(JoinLines(Lines(f)))
  }

  // ---------------------------------------------------------------- parsing

  /** The domain in front of the fixed wording; None when the line does not match. */
  function DomainOf(header: string): Option<string> {
    var n := |header| - |WANTS|;
    if n >= 1 && header[n..] == WANTS && OneLine(header[..n]) then Some(header[..n]) else None
  }

  /** The value on the first line that starts with the prefix. */
  function FieldOf(lines: seq<string>, prefix: string): Result<string> {
    if |lines| == 0 then Err(MissingField(prefix))
    else if StartsWith(lines[0], prefix) then Ok(Trim(lines[0][|prefix|..]))
    else FieldOf(lines[1..], prefix)
  }

  function Parse(message: string): Result<Parsed> {
    var lines := Split(message);
    if |lines| < 10 then Err(TooFewLines) else
    var domain := DomainOf(lines[0]);
    if domain.None? then Err(BadHeader) else
    var address := Trim(lines[1]);
    if !Addresses.IsValidSolanaPubkey(address) then Err(InvalidAddress) else
    var nonce := FieldOf(lines, NONCE);
    if nonce.Err? then Err(nonce.error) else
    var issuedAt := FieldOf(lines, ISSUED_AT);
    if issuedAt.Err? then Err(issuedAt.error) else
    var expirationTime := FieldOf(lines, EXPIRATION_TIME);
    if expirationTime.Err? then Err(expirationTime.error) else
    var chainId := FieldOf(lines, CHAIN_ID);
    if chainId.Err? then Err(chainId.error) else
    Ok(Parsed(domain.value, address, nonce.value, issuedAt.value, expirationTime.value, chainId.value))
  }

  // ---------------------------------------------------------------- what parsing accepts

  /** `value` is what follows the prefix, without the space around it, on the first line that starts so. */
  predicate FirstField(lines: seq<string>, prefix: string, value: string) {
    exists i :: 0 <= i < |lines| && StartsWith(lines[i], prefix) && value == Trim(lines[i][|prefix|..])
                && forall j :: 0 <= j < i ==> !StartsWith(lines[j], prefix)
  }

  lemma {:induction false} FieldIsFirst(lines: seq<string>, prefix: string, value: string)
    ensures FieldOf(lines, prefix) == Ok(value) <==> FirstField(lines, prefix, value)
    ensures FieldOf(lines, prefix).Err? ==> FieldOf(lines, prefix) == Err(MissingField(prefix))
  {
    hide Trim;
    if |lines| > 0 && !StartsWith(lines[0], prefix) {
      FieldIsFirst(lines[1..], prefix, value);
      if FirstField(lines, prefix, value) {
        var i :| 0 <= i < |lines| && StartsWith(lines[i], prefix) && value == Trim(lines[i][|prefix|..])
                 && forall j :: 0 <= j < i ==> !StartsWith(lines[j], prefix);
        assert lines[1..][i - 1] == lines[i];
        assert forall j :: 0 <= j < i - 1 ==> lines[1..][j] == lines[j + 1];
      }
      if FirstField(lines[1..], prefix, value) {
        var i :| 0 <= i < |lines[1..]| && StartsWith(lines[1..][i], prefix) && value == Trim(lines[1..][i][|prefix|..])
                 && forall j :: 0 <= j < i ==> !StartsWith(lines[1..][j], prefix);
        assert lines[i + 1] == lines[1..][i];
        assert forall j :: 0 < j < i + 1 ==> lines[j] == lines[1..][j - 1];
      }
    }
  }

  lemma DomainIs(header: string, domain: string)
    ensures DomainOf(header) == Some(domain) <==> header == domain + WANTS && |domain| > 0 && OneLine(domain)
  {
    hide OneLine;
    if header == domain + WANTS {
      assert header[|domain|..] == WANTS && header[..|domain|] == domain;
    }
    if DomainOf(header) == Some(domain) {
      assert header == header[..|domain|] + header[|domain|..];
    }
  }

  /**
   * What parsing accepts, and as what: ten lines or more, the first the domain with the fixed wording,
   * the second a valid address, and each field on the first line that starts with its prefix.
   */
  lemma ParsedExactlyWhen(message: string, p: Parsed)
    ensures var lines := Split(message);
            Parse(message) == Ok(p)
            <==> && |lines| >= 10 && lines[0] == p.domain + WANTS && |p.domain| > 0 && OneLine(p.domain)
                 && p.address == Trim(lines[1]) && Addresses.IsValidSolanaPubkey(p.address)
                 && FirstField(lines, "Nonce: ", p.nonce) && FirstField(lines, "Issued At: ", p.issuedAt)
                 && FirstField(lines, "Expiration Time: ", p.expirationTime) && FirstField(lines, "Chain ID: ", p.chainId)
  {
    var lines := Split(message);
    FieldIsFirst(lines, NONCE, p.nonce);
    FieldIsFirst(lines, ISSUED_AT, p.issuedAt);
    FieldIsFirst(lines, EXPIRATION_TIME, p.expirationTime);
    FieldIsFirst(lines, CHAIN_ID, p.chainId);
    if |lines| >= 10 {
      DomainIs(lines[0], p.domain);
    }
    hide FieldOf, FirstField, DomainOf, Split, Trim, OneLine, Addresses.IsValidSolanaPubkey;
  }

  predicate AllSpace(s: string) {
    forall i :: 0 <= i < |s| ==> IsSpace(s[i])
  }

  lemma {:induction false} TrimStartIs(s: string)
    ensures var t := TrimStart(s);
            |t| <= |s| && s == s[..|s| - |t|] + t && AllSpace(s[..|s| - |t|]) && (t != "" ==> !IsSpace(t[0]))
  {
    hide IsSpace;
    if |s| > 0 && IsSpace(s[0]) {
      TrimStartIs(s[1..]);
      var t := TrimStart(s);
      assert s[..|s| - |t|] == [s[0]] + s[1..][..|s| - 1 - |t|];
    }
  }

  lemma {:induction false} TrimEndIs(s: string)
    ensures var t := TrimEnd(s);
            |t| <= |s| && s == t + s[|t|..] && AllSpace(s[|t|..]) && (t != "" ==> !IsSpace(t[|t| - 1]))
  {
    hide IsSpace;
    if |s| > 0 && IsSpace(s[|s| - 1]) {
      TrimEndIs(s[..|s| - 1]);
      var t := TrimEnd(s);
      assert s[|t|..] == s[..|s| - 1][|t|..] + [s[|s| - 1]];
    }
  }

  /** Trimming takes away space at both ends, all of it and nothing else. */
  lemma TrimTakesSpace(s: string) returns (before: string, after: string)
    ensures s == before + Trim(s) + after && AllSpace(before) && AllSpace(after)
    ensures Trim(s) != "" ==> !IsSpace(Trim(s)[0]) && !IsSpace(Trim(s)[|Trim(s)| - 1])
  {
    hide IsSpace, TrimStart, TrimEnd;
    TrimStartIs(s);
    var t := TrimStart(s);
    TrimEndIs(t);
    before := s[..|s| - |t|];
    after := t[|TrimEnd(t)|..];
  }

  // ---------------------------------------------------------------- when parsing undoes printing

  predicate IsTrimmed(s: string) { Trim(s) == s }

  /** No field breaks its line, the values have no space around them, and the header can match. */
  predicate WellFormed(f: Fields) {
    && Addresses.IsValidSolanaPubkey(f.address)
    && |f.domain| > 0 && OneLine(f.domain)
    && (f.statement.Some? ==> '\n' !in f.statement.value) && '\n' !in UriOf(f) && '\n' !in VersionOf(f)
    && '\n' !in f.chainId && '\n' !in f.nonce && '\n' !in f.issuedAt && '\n' !in f.expirationTime
    && IsTrimmed(f.chainId) && IsTrimmed(f.nonce) && IsTrimmed(f.issuedAt) && IsTrimmed(f.expirationTime)
  }

  /** The header or the statement is taken for the line of this field, and says something else. */
  predicate Shadowed(f: Fields, prefix: string, value: string) {
    if StartsWith(Header(f), prefix) then Trim(Header(f)[|prefix|..]) != value
    else StartsWith(StatementOf(f), prefix) && Trim(StatementOf(f)[|prefix|..]) != value
  }

  predicate AnyShadowed(f: Fields) {
    || Shadowed(f, NONCE, f.nonce) || Shadowed(f, ISSUED_AT, f.issuedAt)
    || Shadowed(f, EXPIRATION_TIME, f.expirationTime) || Shadowed(f, CHAIN_ID, f.chainId)
  }

  lemma FirstBreakAt(a: string, b: string)
    requires '\n' !in a
    ensures FirstBreak(a) == |a|
    ensures FirstBreak(a + "\n" + b) == |a|
  {
    var s := a + "\n" + b;
    assert s[|a|] == '\n';
    assert forall i :: 0 <= i < |a| ==> s[i] == a[i];
    assert forall j :: |a| < j <= |s| ==> s[..j][|a|] == '\n';
  }

  lemma SplitOfBreak(a: string, b: string)
    requires '\n' !in a
    ensures Split(a + "\n" + b) == [a] + Split(b)
  {
    hide FirstBreak;
    FirstBreakAt(a, b);
    var s := a + "\n" + b;
    assert s[..|a|] == a && s[|a| + 1..] == b;
  }

  /** Splitting undoes joining, for lines without a line feed. */
  lemma {:induction false} SplitOfJoin(lines: seq<string>)
    requires |lines| > 0 && forall i :: 0 <= i < |lines| ==> '\n' !in lines[i]
    ensures Split(JoinLines(lines)) == lines
  {
    hide FirstBreak;
    if |lines| == 1 {
      FirstBreakAt(lines[0], "");
    } else {
      SplitOfJoin(lines[1..]);
      SplitOfBreak(lines[0], JoinLines(lines[1..]));
      assert lines == [lines[0]] + lines[1..];
    }
  }

  /** And joining undoes splitting: the lines are the pieces between the line feeds. */
  lemma {:induction false} JoinOfSplit(s: string)
    ensures |Split(s)| > 0 && JoinLines(Split(s)) == s
    ensures forall i :: 0 <= i < |Split(s)| ==> '\n' !in Split(s)[i]
  {
    var i := FirstBreak(s);
    hide FirstBreak;
    if i < |s| {
      JoinOfSplit(s[i + 1..]);
      assert s == s[..i] + "\n" + s[i + 1..];
      assert ([s[..i]] + Split(s[i + 1..]))[1..] == Split(s[i + 1..]);
    } else {
      assert s[..i] == s;
    }
  }

  lemma WordingHasNoBreak()
    ensures OneLine(WANTS)
  {
    assert OneLine(" wants you to sign in ") && OneLine("with your Solana account:");
  }

  lemma DefaultStatementHasNoBreak()
    ensures '\n' !in DEFAULT_STATEMENT
  {
  }

  lemma NotInConcat(a: string, b: string)
    requires '\n' !in a && '\n' !in b
    ensures '\n' !in a + b
  {
  }

  lemma OneLineHasNoBreak(s: string)
    requires OneLine(s)
    ensures '\n' !in s
  {
  }

  lemma LinesHaveNoBreak(f: Fields)
    requires WellFormed(f)
    ensures forall i :: 0 <= i < 11 ==> '\n' !in Lines(f)[i]
  {
    WordingHasNoBreak();
    DefaultStatementHasNoBreak();
    OneLineHasNoBreak(f.domain);
    OneLineHasNoBreak(WANTS);
    NotInConcat(f.domain, WANTS);
    NotInConcat("URI: ", UriOf(f));
    NotInConcat("Version: ", VersionOf(f));
    NotInConcat(CHAIN_ID, f.chainId);
    NotInConcat(NONCE, f.nonce);
    NotInConcat(ISSUED_AT, f.issuedAt);
    NotInConcat(EXPIRATION_TIME, f.expirationTime);
    assert '\n' !in f.address by {
      assert forall i :: 0 <= i < |f.address| ==> Addresses.Base58Class(f.address[i]);
    }
  }

  lemma KeyIsTrimmed(address: string)
    requires Addresses.IsValidSolanaPubkey(address)
    ensures Trim(address) == address
    ensures forall i :: 0 <= i < |address| ==> address[i] != ' '
  {
    assert Addresses.Base58Class(address[0]) && Addresses.Base58Class(address[|address| - 1]);
    assert TrimStart(address) == address;
    assert forall i :: 0 <= i < |address| ==> Addresses.Base58Class(address[i]);
  }

  lemma DomainOfHeader(f: Fields)
    requires |f.domain| > 0 && OneLine(f.domain)
    ensures DomainOf(Header(f)) == Some(f.domain)
  {
    hide OneLine;
    var header := f.domain + WANTS;
    assert header[|f.domain|..] == WANTS && header[..|f.domain|] == f.domain;
  }

  lemma {:induction false} FieldSkips(lines: seq<string>, prefix: string, k: nat)
    requires k <= |lines| && forall i :: 0 <= i < k ==> !StartsWith(lines[i], prefix)
    ensures FieldOf(lines, prefix) == FieldOf(lines[k..], prefix)
    decreases k
  {
    hide StartsWith, Trim;
    if k > 0 {
      assert lines[1..][k - 1..] == lines[k..];
      assert forall i :: 0 <= i < k - 1 ==> lines[1..][i] == lines[i + 1];
      FieldSkips(lines[1..], prefix, k - 1);
    } else {
      assert lines[0..] == lines;
    }
  }

  lemma StartsWithOwn(prefix: string, value: string)
    ensures StartsWith(prefix + value, prefix)
    ensures (prefix + value)[|prefix|..] == value
  {
  }

  predicate IsFieldPrefix(prefix: string) {
    prefix == NONCE || prefix == ISSUED_AT || prefix == EXPIRATION_TIME || prefix == CHAIN_ID
  }

  /** The line that holds the field with this prefix. */
  function LineOf(prefix: string): nat
    requires IsFieldPrefix(prefix)
  {
    if prefix == CHAIN_ID then 7 else if prefix == NONCE then 8 else if prefix == ISSUED_AT then 9 else 10
  }

  lemma DifferAt(s: string, p: string, i: nat)
    requires i < |p| && (i < |s| ==> s[i] != p[i])
    ensures !StartsWith(s, p)
  {
    assert |p| <= |s| ==> s[..|p|][i] == s[i];
  }

  lemma AddressIsNoField(address: string, prefix: string)
    requires Addresses.IsValidSolanaPubkey(address) && IsFieldPrefix(prefix)
    ensures !StartsWith(address, prefix)
  {
    KeyIsTrimmed(address);
    var i := |prefix| - 1;
    assert prefix[i] == ' ';
    DifferAt(address, prefix, i);
  }

  /** Between the statement and the field's own line nothing starts with its prefix. */
  lemma FixedLinesAreNoField(f: Fields, prefix: string)
    requires IsFieldPrefix(prefix) && Addresses.IsValidSolanaPubkey(f.address)
    ensures forall i :: 0 < i < LineOf(prefix) && i != 3 ==> !StartsWith(Lines(f)[i], prefix)
  {
    AddressIsNoField(f.address, prefix);
    DifferAt("", prefix, 0);
    var lines := Lines(f);
    forall i | 4 < i < LineOf(prefix)
      ensures !StartsWith(lines[i], prefix)
    {
      assert lines[5][0] == 'U' && lines[6][0] == 'V' && lines[7][0] == 'C' && lines[8][0] == 'N' && lines[9][0] == 'I';
      DifferAt(lines[i], prefix, 0);
    }
  }

  lemma HeaderAndStatement(f: Fields)
    ensures Lines(f)[0] == Header(f) && Lines(f)[3] == StatementOf(f) && Lines(f)[1] == f.address
    ensures Lines(f)[7] == CHAIN_ID + f.chainId && Lines(f)[8] == NONCE + f.nonce
    ensures Lines(f)[9] == ISSUED_AT + f.issuedAt && Lines(f)[10] == EXPIRATION_TIME + f.expirationTime
  {
  }

  /** What the parser finds for one field of a printed message. */
  lemma FieldFound(f: Fields, prefix: string, value: string)
    requires WellFormed(f) && IsFieldPrefix(prefix) && IsTrimmed(value)
    requires Lines(f)[LineOf(prefix)] == prefix + value
    ensures FieldOf(Lines(f), prefix).Ok?
    ensures FieldOf(Lines(f), prefix) == Ok(value) <==> !Shadowed(f, prefix, value)
  {
    hide StartsWith, Trim, Lines, Addresses.IsValidSolanaPubkey, OneLine;
    var lines, n := Lines(f), LineOf(prefix);
    FixedLinesAreNoField(f, prefix);
    HeaderAndStatement(f);
    if StartsWith(lines[0], prefix) {
      assert lines[0..] == lines;
    } else if StartsWith(lines[3], prefix) {
      FieldSkips(lines, prefix, 3);
      assert lines[3..][0] == lines[3];
    } else {
      FieldSkips(lines, prefix, n);
      assert lines[n..][0] == lines[n];
      StartsWithOwn(prefix, value);
    }
  }

  /**
   * Parsing a printed message returns its domain, address, nonce, times and chain id exactly when
   * neither the header nor the statement is taken for one of the field lines.
   */
  lemma ParseOfBuild(f: Fields)
    requires WellFormed(f)
    ensures Build(f).Ok?
    ensures Parse(Build(f).value)
            == Ok(Parsed(f.domain, f.address, f.nonce, f.issuedAt, f.expirationTime, f.chainId))
            <==> !AnyShadowed(f)
    ensures Parse(Build(f).value).Ok?
  {
    LinesHaveNoBreak(f);
    SplitOfJoin(Lines(f));
    DomainOfHeader(f);
    KeyIsTrimmed(f.address);
    HeaderAndStatement(f);
    FieldFound(f, NONCE, f.nonce);
    FieldFound(f, ISSUED_AT, f.issuedAt);
    FieldFound(f, EXPIRATION_TIME, f.expirationTime);
    FieldFound(f, CHAIN_ID, f.chainId);
    hide Lines, Split, JoinLines, DomainOf, FieldOf, Trim, Shadowed, Addresses.IsValidSolanaPubkey, OneLine, IsTrimmed;
  }

  lemma NoSpaceThenW(prefix: string, d: nat)
    requires IsFieldPrefix(prefix) && d + 1 < |prefix|
    ensures !(prefix[d] == ' ' && prefix[d + 1] == 'w')
  {
  }

  /** The header starts with a field prefix when the domain does, or is the prefix but for its last space. */
  lemma HeaderShadowing(f: Fields, prefix: string)
    requires IsFieldPrefix(prefix)
    ensures StartsWith(Header(f), prefix)
            <==> StartsWith(f.domain, prefix) || f.domain == prefix[..|prefix| - 1]
  {
    var n, d := |prefix|, |f.domain|;
    var header := f.domain + WANTS;
    assert WANTS[0] == ' ' && WANTS[1] == 'w';
    if d >= n {
      assert header[..n] == f.domain[..n];
    } else if d == n - 1 {
      assert header[..n] == f.domain + [' '];
      assert prefix == prefix[..n - 1] + [' '];
    } else if StartsWith(header, prefix) {
      assert header[..n][d] == ' ' && header[..n][d + 1] == 'w';
      NoSpaceThenW(prefix, d);
    }
  }

  /** So a domain and a statement that start with no prefix, and a domain that is none of the four, round-trip. */
  lemma PlainFieldsRoundTrip(f: Fields)
    requires WellFormed(f)
    requires forall prefix :: IsFieldPrefix(prefix) ==>
               && !StartsWith(f.domain, prefix) && f.domain != prefix[..|prefix| - 1]
               && !StartsWith(StatementOf(f), prefix)
    ensures Parse(Build(f).value) == Ok(Parsed(f.domain, f.address, f.nonce, f.issuedAt, f.expirationTime, f.chainId))
  {
    hide Parse, Build, WellFormed, Header, StatementOf, StartsWith, Trim;
    HeaderShadowing(f, NONCE);
    HeaderShadowing(f, ISSUED_AT);
    HeaderShadowing(f, EXPIRATION_TIME);
    HeaderShadowing(f, CHAIN_ID);
    ParseOfBuild(f);
  }

  lemma WordingIsTrimmed()
    ensures Trim(WANTS[1..]) == WANTS[1..]
  {
    assert WANTS[1] == 'w' && WANTS[|WANTS| - 1] == ':';
  }

  /** A domain that is a field prefix but for its last space makes the header that field's line. */
  lemma PrefixHeader(f: Fields, prefix: string)
    requires IsFieldPrefix(prefix) && f.domain == prefix[..|prefix| - 1]
    ensures StartsWith(Header(f), prefix) && Trim(Header(f)[|prefix|..]) == WANTS[1..]
  {
    hide Trim, StartsWith;
    HeaderShadowing(f, prefix);
    WordingIsTrimmed();
    var n := |prefix|;
    assert (f.domain + WANTS)[n..] == WANTS[1..];
  }

  /** The value a message carries for a field. */
  function ValueOf(f: Fields, prefix: string): string
    requires IsFieldPrefix(prefix)
  {
    if prefix == CHAIN_ID then f.chainId
    else if prefix == NONCE then f.nonce
    else if prefix == ISSUED_AT then f.issuedAt
    else f.expirationTime
  }

  /**
   * The domains that start with no prefix and still fail are `Nonce:`, `Issued At:`, `Expiration Time:`
   * and `Chain ID:`: each loses its own field, unless that says what is left of the header.
   */
  lemma PrefixDomainFails(f: Fields, prefix: string)
    requires WellFormed(f) && IsFieldPrefix(prefix) && f.domain == prefix[..|prefix| - 1]
    requires ValueOf(f, prefix) != WANTS[1..]
    ensures Parse(Build(f).value) != Ok(Parsed(f.domain, f.address, f.nonce, f.issuedAt, f.expirationTime, f.chainId))
  {
    hide Trim, Parse, Build, WellFormed, StartsWith, Header;
    PrefixHeader(f, prefix);
    ParseOfBuild(f);
  }
}
