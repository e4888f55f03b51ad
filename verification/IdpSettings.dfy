/**
 The protocol settings of an identity provider connection and their validators
 (app/auth/schemas.py). Validators run again on every load, so their fixed points matter.
 */
module IdpSettings {
  import opened Text

  datatype Value = Str(s: string) | Flag(b: bool) | Num(n: int) | Nil

  type Config = map<string, Value>

  /**
   One settings model: its fields with their defaults, the secret ones, which secrets the app
   generates and the flag that asks for each, and its text validators.
   */
  datatype Model = Model(
    defaults: Config,
    secrets: set<string>,
    generated: map<string, string>,
    normal: (string, string) -> Option<string>)

  /** SETTINGS_MODELS: a model per protocol name. */
  type Models = map<string, Model>

  // --- validators ------------------------------------------------------------------------

  const WELLKNOWN := "/.well-known/openid-configuration"

  function RStripSlash(s: string): string {
    if s != "" && s[|s| - 1] == '/' then RStripSlash(s[..|s| - 1]) else s
  }

  /** `_strip_wellknown`: one pass over a pasted issuer or discovery URL. */
  function StripWellknown(v: string): string {
    var w := RStripSlash(Strip(v));
    if HasSuffix(w, WELLKNOWN) then w[..|w| - |WELLKNOWN|] else w
  }

  /** The characters `str.splitlines` breaks at; all of them are whitespace. */
  predicate IsLineBreak(c: char) {
    var n := c as int;
    0x0A <= n <= 0x0D || 0x1C <= n <= 0x1E || n == 0x85 || n == 0x2028 || n == 0x2029
  }

  /** Line feed to carriage return, three separators, the next-line control and Unicode's line and paragraph separators. */
  lemma {:induction false} LineBreaksAre(c: char)
    ensures IsLineBreak(c) <==> c as int in {10, 11, 12, 13, 28, 29, 30, 133, 8232, 8233}
    ensures IsLineBreak(c) ==> IsSpace(c)
  {
  }

  /** Lines of s. A \r\n pair yields an empty line in between, which every use drops. */
  function Lines(s: string): (r: seq<string>)
    ensures r != []
  {
    if s == "" then [""]
    else
      var rest := Lines(s[1..]);
      if IsLineBreak(s[0]) then [""] + rest else [[s[0]] + rest[0]] + rest[1..]
  }

  function Compact(s: string): string {
    if s == "" then ""
    else (if IsSpace(s[0]) then "" else [s[0]]) + Compact(s[1..])
  }

  /** A line `_normalise_cert` leaves out: blank, or one of the PEM markers. */
  predicate Skipped(line: string) {
    Strip(line) == "" || Contains(line, "BEGIN CERT") || Contains(line, "END CERT")
  }

  /** The lines between the PEM markers, trimmed and joined. */
  function PemBody(lines: seq<string>): string {
    if lines == [] then ""
    else
      (if Skipped(lines[0]) then "" else Strip(lines[0])) + PemBody(lines[1..])
  }

  /** `_normalise_cert` */
  function NormaliseCert(v: string): string {
    var w := Strip(v);
    if Contains(w, "BEGIN CERTIFICATE") then PemBody(Lines(w)) else Compact(w)
  }

  // --- their fixed points -------------------------------------------------------------------

  lemma {:induction false} RStripShorter(s: string)
    ensures |RStrip(s)| <= |s| && RStrip(s) <= s
    ensures RStrip(s) == "" || !IsSpace(RStrip(s)[|RStrip(s)| - 1])
  {
    if s != "" && IsSpace(s[|s| - 1]) { RStripShorter(s[..|s| - 1]); }
  }

  lemma {:induction false} LStripShorter(s: string)
    ensures |LStrip(s)| <= |s|
    ensures LStrip(s) == "" || !IsSpace(LStrip(s)[0])
    ensures LStrip(s) == s[|s| - |LStrip(s)|..]
  {
    if s != "" && IsSpace(s[0]) { LStripShorter(s[1..]); }
  }

  lemma {:induction false} StripIsPart(s: string)
    ensures |RStrip(s)| <= |s| && |LStrip(s)| <= |s| && |Strip(s)| <= |s|
    ensures |Strip(s)| == |s| ==> Strip(s) == s
    ensures forall c :: c in Strip(s) ==> c in s
  {
    hide LStrip, RStrip;
    LStripShorter(s);
    RStripShorter(s);
    RStripShorter(LStrip(s));
  }

  lemma {:induction false} StripIsTrimmed(s: string)
    ensures Trimmed(Strip(s))
  {
    hide LStrip, RStrip;
    LStripShorter(s);
    RStripShorter(LStrip(s));
  }

  lemma {:induction false} StripTrims(s: string)
    ensures |Strip(s)| <= |s| && Trimmed(Strip(s))
    ensures forall c :: c in Strip(s) ==> c in s
    ensures Strip(s) == s <==> Trimmed(s)
    ensures |Strip(s)| == |s| ==> Strip(s) == s
  {
    hide Strip, Trimmed;
    StripIsPart(s);
    StripIsTrimmed(s);
    if Trimmed(s) { StripTrimmed(s); }
  }

  lemma {:induction false} RStripSlashShorter(s: string)
    ensures |RStripSlash(s)| <= |s| && RStripSlash(s) <= s
    ensures RStripSlash(s) == s <==> s == "" || s[|s| - 1] != '/'
    ensures RStripSlash(s) == "" || RStripSlash(s)[|RStripSlash(s)| - 1] != '/'
  {
    if s != "" && s[|s| - 1] == '/' { RStripSlashShorter(s[..|s| - 1]); }
  }

  /** The issuers validation leaves alone. */
  predicate PlainIssuer(v: string) {
    Trimmed(v) && (v == "" || v[|v| - 1] != '/') && !HasSuffix(v, WELLKNOWN)
  }

  lemma {:induction false} IssuerFixedExactly(v: string)
    ensures StripWellknown(v) == v <==> PlainIssuer(v)
  {
    StripTrims(v);
    RStripSlashShorter(Strip(v));
  }

  /**
   When one pass settles a submitted issuer: with its slashes gone, what stands before the discovery
   path is an issuer, or there is no such path and no whitespace came to the end.
   */
  predicate IssuerSettles(v: string) {
    var w := RStripSlash(Strip(v));
    if HasSuffix(w, WELLKNOWN) then PlainIssuer(w[..|w| - |WELLKNOWN|])
    else w == "" || !IsSpace(w[|w| - 1])
  }

  /** Validation runs once on saving and again on every load; these are the issuers that survive that. */
  lemma {:induction false} IssuerOnePassExactly(v: string)
    ensures StripWellknown(StripWellknown(v)) == StripWellknown(v) <==> IssuerSettles(v)
  {
    var s := Strip(v);
    var w := RStripSlash(s);
    IssuerFixedExactly(StripWellknown(v));
    StripTrims(v);
    RStripSlashShorter(s);
    assert w != "" ==> w[0] == s[0];
  }

  /** An issuer with the discovery path pasted n times over. */
  function Discovery(issuer: string, n: nat): string {
    if n == 0 then issuer else Discovery(issuer, n - 1) + WELLKNOWN
  }

  function Passes(v: string, n: nat): string
    decreases n
  {
    if n == 0 then v else Passes(StripWellknown(v), n - 1)
  }

  lemma {:induction false} DiscoveryStarts(issuer: string, n: nat)
    requires issuer != ""
    ensures Discovery(issuer, n) != "" && Discovery(issuer, n)[0] == issuer[0]
  {
    if n > 0 { DiscoveryStarts(issuer, n - 1); }
  }

  lemma {:induction false} OnePathPerPass(issuer: string, n: nat)
    requires issuer != "" && PlainIssuer(issuer)
    ensures StripWellknown(Discovery(issuer, n + 1)) == Discovery(issuer, n)
  {
    var url, rest := Discovery(issuer, n + 1), Discovery(issuer, n);
    DiscoveryStarts(issuer, n + 1);
    assert url[|url| - 1] == WELLKNOWN[|WELLKNOWN| - 1] == 'n';
    StripTrims(url);
    RStripSlashShorter(url);
    assert url[|url| - |WELLKNOWN|..] == WELLKNOWN && url[..|url| - |WELLKNOWN|] == rest;
  }

  lemma {:induction false} PassesPeel(issuer: string, n: nat, k: nat)
    requires issuer != "" && PlainIssuer(issuer) && k <= n
    ensures Passes(Discovery(issuer, n), k) == Discovery(issuer, n - k)
    decreases k
  {
    hide Discovery, PlainIssuer, StripWellknown;
    if k > 0 {
      OnePathPerPass(issuer, n - 1);
      PassesPeel(issuer, n - 1, k - 1);
    }
  }

  lemma {:induction false} DiscoveryMoves(issuer: string, n: nat)
    requires issuer != "" && PlainIssuer(issuer)
    ensures StripWellknown(Discovery(issuer, n)) == Discovery(issuer, n) <==> n == 0
  {
    if n == 0 {
      IssuerFixedExactly(issuer);
    } else {
      OnePathPerPass(issuer, n - 1);
      assert |Discovery(issuer, n)| == |Discovery(issuer, n - 1)| + |WELLKNOWN|;
    }
  }

  /** No number of passes is enough for every issuer: each takes off one discovery path and no more. */
  lemma {:induction false} IssuerPassesUnbounded(issuer: string, n: nat, k: nat)
    requires issuer != "" && PlainIssuer(issuer) && k <= n
    ensures Passes(Discovery(issuer, n), k) == Discovery(issuer, n - k)
    ensures StripWellknown(Passes(Discovery(issuer, n), k)) == Passes(Discovery(issuer, n), k) <==> k == n
  {
    PassesPeel(issuer, n, k);
    DiscoveryMoves(issuer, n - k);
  }

  predicate AllSlashes(s: string) {
    forall i :: 0 <= i < |s| ==> s[i] == '/'
  }

  lemma {:induction false} SlashesDropped(s: string, slashes: string)
    requires AllSlashes(slashes) && (s == "" || s[|s| - 1] != '/')
    ensures RStripSlash(s + slashes) == s
  {
    if slashes == "" {
      assert s + slashes == s;
    } else {
      var k := |slashes| - 1;
      assert (s + slashes)[..|s + slashes| - 1] == s + slashes[..k];
      SlashesDropped(s, slashes[..k]);
    }
  }

  /** A pasted issuer or discovery URL, with stray slashes and whitespace, means the issuer. */
  lemma {:induction false} PastedUrlIsIssuer(before: string, issuer: string, slashes: string, after: string)
    requires AllSpace(before) && AllSpace(after) && AllSlashes(slashes) && issuer != "" && PlainIssuer(issuer)
    ensures StripWellknown(before + (issuer + slashes) + after) == issuer
    ensures StripWellknown(before + (issuer + WELLKNOWN + slashes) + after) == issuer
  {
    StripGaps(before, issuer + slashes, after);
    SlashesDropped(issuer, slashes);
    var url := issuer + WELLKNOWN;
    assert url[0] == issuer[0] && WELLKNOWN[|WELLKNOWN| - 1] == 'n' == url[|url| - 1];
    StripGaps(before, url + slashes, after);
    SlashesDropped(url, slashes);
    assert url[|url| - |WELLKNOWN|..] == WELLKNOWN && url[..|url| - |WELLKNOWN|] == issuer;
  }

  predicate NoSpace(v: string) {
    forall i :: 0 <= i < |v| ==> !IsSpace(v[i])
  }

  lemma {:induction false} CompactHasNoSpace(s: string)
    ensures NoSpace(Compact(s)) && (Compact(s) == s <==> NoSpace(s))
  {
    if s != "" {
      CompactHasNoSpace(s[1..]);
      CompactShorter(s[1..]);
    }
  }

  lemma {:induction false} CompactShorter(s: string)
    ensures |Compact(s)| <= |s|
  {
    if s != "" { CompactShorter(s[1..]); }
  }

  lemma {:induction false} LinesHaveNoBreak(s: string)
    ensures forall line, c :: line in Lines(s) && c in line ==> !IsLineBreak(c)
  {
    if s != "" {
      LinesHaveNoBreak(s[1..]);
      assert Lines(s[1..])[0] in Lines(s[1..]);
    }
  }

  lemma {:induction false} OneLine(s: string)
    requires forall c :: c in s ==> !IsLineBreak(c)
    ensures Lines(s) == [s]
  {
    if s != "" {
      OneLine(s[1..]);
      assert s == [s[0]] + s[1..];
    }
  }

  lemma {:induction false} BodyHasNoBreak(lines: seq<string>)
    requires forall line, c :: line in lines && c in line ==> !IsLineBreak(c)
    ensures forall c :: c in PemBody(lines) ==> !IsLineBreak(c)
  {
    if lines != [] {
      BodyHasNoBreak(lines[1..]);
      StripTrims(lines[0]);
      assert lines[0] in lines;
    }
  }

  lemma {:induction false} ContainsShorter(s: string, part: string, prefix: string)
    requires Contains(s, part) && prefix <= part
    ensures Contains(s, prefix)
  {
    var i :| 0 <= i <= |s| && HasPrefix(s[i..], part);
    assert HasPrefix(s[i..], prefix);
  }

  lemma {:induction false} ContainedSpace(s: string, part: string, k: nat)
    requires Contains(s, part) && k < |part| && IsSpace(part[k])
    ensures !NoSpace(s)
  {
    var i :| 0 <= i <= |s| && HasPrefix(s[i..], part);
    assert s[i + k] == part[k];
  }

  /** A certificate survives validation unchanged exactly when it holds no whitespace at all. */
  lemma {:induction false} CertFixedExactly(v: string)
    ensures NormaliseCert(v) == v <==> NoSpace(v)
  {
    StripTrims(v);
    var w := Strip(v);
    if NoSpace(v) {
      if Contains(w, "BEGIN CERTIFICATE") { ContainedSpace(w, "BEGIN CERTIFICATE", 5); }
      CompactHasNoSpace(v);
    } else if NormaliseCert(v) == v {
      if Contains(w, "BEGIN CERTIFICATE") {
        LinesHaveNoBreak(w);
        BodyHasNoBreak(Lines(w));
        MarkerLineDropped(v, w);
      } else {
        CompactShorter(w);
        CompactHasNoSpace(w);
      }
    }
  }

  lemma {:induction false} MarkerLineDropped(v: string, w: string)
    requires w == Strip(v) && Contains(w, "BEGIN CERTIFICATE")
    requires forall c :: c in PemBody(Lines(w)) ==> !IsLineBreak(c)
    ensures PemBody(Lines(w)) != v
  {
    StripTrims(v);
    if c :| c in w && IsLineBreak(c) {
      assert c in v && c !in PemBody(Lines(w));
    } else {
      OneLine(w);
      ContainsShorter(w, "BEGIN CERTIFICATE", "BEGIN CERT");
      assert PemBody([w]) == "" + PemBody([]);
    }
  }

  lemma {:induction false} BodySpaceExactly(lines: seq<string>)
    ensures NoSpace(PemBody(lines)) <==> forall line :: line in lines && !Skipped(line) ==> NoSpace(Strip(line))
  {
    if lines != [] {
      BodySpaceExactly(lines[1..]);
      var head := if Skipped(lines[0]) then "" else Strip(lines[0]);
      SpaceInParts(head, PemBody(lines[1..]));
      assert PemBody(lines) == head + PemBody(lines[1..]);
      assert forall line :: line in lines <==> line == lines[0] || line in lines[1..];
    }
  }

  lemma {:induction false} SpaceInParts(a: string, b: string)
    ensures NoSpace(a + b) <==> NoSpace(a) && NoSpace(b)
  {
    forall i | 0 <= i < |a| ensures a[i] == (a + b)[i] {
    }
    forall i | 0 <= i < |b| ensures b[i] == (a + b)[|a| + i] {
    }
  }

  /** When one pass settles a submitted certificate: it is bare, or no body line has a space inside. */
  predicate CertSettles(v: string) {
    var w := Strip(v);
    Contains(w, "BEGIN CERTIFICATE") ==> forall line :: line in Lines(w) && !Skipped(line) ==> NoSpace(Strip(line))
  }

  lemma {:induction false} CertOnePassExactly(v: string)
    ensures NormaliseCert(NormaliseCert(v)) == NormaliseCert(v) <==> CertSettles(v)
  {
    CertFixedExactly(NormaliseCert(v));
    CompactHasNoSpace(Strip(v));
    BodySpaceExactly(Lines(Strip(v)));
  }

  /** Two passes settle every certificate. */
  lemma {:induction false} CertTwoPassesSuffice(v: string)
    ensures var twice := NormaliseCert(NormaliseCert(v)); NormaliseCert(twice) == twice
  {
    var x := NormaliseCert(v);
    CertFixedExactly(NormaliseCert(x));
    CompactHasNoSpace(Strip(v));
    CompactHasNoSpace(Strip(x));
    if Contains(Strip(v), "BEGIN CERTIFICATE") {
      LinesHaveNoBreak(Strip(v));
      BodyHasNoBreak(Lines(Strip(v)));
      if Contains(Strip(x), "BEGIN CERTIFICATE") { SingleLineDropped(x); }
    } else {
      CertFixedExactly(x);
    }
  }

  lemma {:induction false} SingleLineDropped(x: string)
    requires Contains(Strip(x), "BEGIN CERTIFICATE") && forall c :: c in x ==> !IsLineBreak(c)
    ensures NormaliseCert(x) == ""
  {
    hide Strip, Lines;
    var w := Strip(x);
    StripTrims(x);
    OneLine(w);
    ContainsShorter(w, "BEGIN CERTIFICATE", "BEGIN CERT");
    assert PemBody([w]) == "" + PemBody([]);
  }

  // --- PEM and bare certificates -------------------------------------------------------------

  const PEM_BEGIN := "-----" + "BEGIN CERTIFICATE" + "-----"
  const PEM_END := "-----" + "END CERT" + "IFICATE-----"

  function JoinChunks(chunks: seq<string>): string {
    if chunks == [] then "" else chunks[0] + JoinChunks(chunks[1..])
  }

  predicate AllBreaks(s: string) {
    forall i :: 0 <= i < |s| ==> IsLineBreak(s[i])
  }

  /** The lines of a PEM body and its closing marker, each line ended by `eol`: "\n", "\r\n" or any other breaks. */
  function PemTail(chunks: seq<string>, eol: string): string {
    if chunks == [] then PEM_END else chunks[0] + eol + PemTail(chunks[1..], eol)
  }

  function Pem(chunks: seq<string>, eol: string): string {
    PEM_BEGIN + eol + PemTail(chunks, eol)
  }

  lemma {:induction false} FirstLine(line: string, b: char, rest: string)
    requires IsLineBreak(b) && forall c :: c in line ==> !IsLineBreak(c)
    ensures Lines(line + [b] + rest) == [line] + Lines(rest)
  {
    var s := line + [b] + rest;
    if line == "" {
      assert s[1..] == rest;
    } else {
      assert s[1..] == line[1..] + [b] + rest;
      FirstLine(line[1..], b, rest);
      assert [s[0]] + line[1..] == line;
    }
  }

  lemma {:induction false} BodyCons(line: string, lines: seq<string>)
    ensures PemBody([line] + lines) == (if Skipped(line) then "" else Strip(line)) + PemBody(lines)
  {
    assert ([line] + lines)[1..] == lines;
  }

  /** However long the line end is, the rest is read on its own. */
  lemma {:induction false} FirstLineBody(line: string, eol: string, rest: string)
    requires eol != "" && AllBreaks(eol) && forall c :: c in line ==> !IsLineBreak(c)
    ensures PemBody(Lines(line + eol + rest)) == (if Skipped(line) then "" else Strip(line)) + PemBody(Lines(rest))
    decreases |eol|
  {
    hide Lines, Skipped, Strip, PemBody, IsLineBreak;
    var later := eol[1..] + rest;
    FirstLine(line, eol[0], later);
    assert line + eol + rest == line + [eol[0]] + later;
    BodyCons(line, Lines(later));
    if |eol| == 1 {
      assert later == rest;
    } else {
      FirstLineBody("", eol[1..], rest);
      assert "" + eol[1..] + rest == later;
      EmptySkipped();
    }
  }

  lemma {:induction false} EmptySkipped()
    ensures Skipped("")
  {
  }

  lemma {:induction false} ChunkKept(chunk: string)
    requires chunk != "" && NoSpace(chunk)
    ensures !Skipped(chunk) && Strip(chunk) == chunk && forall c :: c in chunk ==> !IsLineBreak(c)
  {
    if Contains(chunk, "BEGIN CERT") { ContainedSpace(chunk, "BEGIN CERT", 5); }
    if Contains(chunk, "END CERT") { ContainedSpace(chunk, "END CERT", 3); }
    StripTrims(chunk);
  }

  lemma {:induction false} TailBody(chunks: seq<string>, eol: string)
    requires eol != "" && AllBreaks(eol) && forall chunk :: chunk in chunks ==> chunk != "" && NoSpace(chunk)
    ensures PemBody(Lines(PemTail(chunks, eol))) == JoinChunks(chunks)
  {
    hide Lines, Contains, Strip, Skipped, PemBody;
    if chunks == [] {
      EndMarkerDropped();
    } else {
      var chunk, rest := chunks[0], PemTail(chunks[1..], eol);
      assert chunk in chunks && forall c :: c in chunks[1..] ==> c in chunks;
      ChunkKept(chunk);
      FirstLineBody(chunk, eol, rest);
      TailBody(chunks[1..], eol);
    }
  }

  lemma {:induction false} EndMarkerDropped()
    ensures PemBody(Lines(PEM_END)) == ""
  {
    EndMarker();
    OneLine(PEM_END);
    assert PemBody([PEM_END]) == "" + PemBody([]);
  }

  lemma {:induction false} EndMarker()
    ensures Contains(PEM_END, "END CERT") && forall c :: c in PEM_END ==> !IsLineBreak(c)
  {
    assert forall i :: 0 <= i < |PEM_END| ==> !IsLineBreak(PEM_END[i]);
    ContainsMiddle("-----", "END CERT", "IFICATE-----");
  }

  lemma {:induction false} ContainsMiddle(before: string, part: string, after: string)
    ensures Contains(before + part + after, part)
  {
    assert (before + part + after)[|before|..] == part + after;
  }

  lemma {:induction false} BeginMarker(tail: string)
    ensures Contains(PEM_BEGIN + tail, "BEGIN CERTIFICATE") && Contains(PEM_BEGIN, "BEGIN CERT")
    ensures forall c :: c in PEM_BEGIN ==> !IsLineBreak(c)
  {
    assert forall i :: 0 <= i < |PEM_BEGIN| ==> !IsLineBreak(PEM_BEGIN[i]);
    ContainsMiddle("-----", "BEGIN CERTIFICATE", "-----");
    ContainsShorter(PEM_BEGIN, "BEGIN CERTIFICATE", "BEGIN CERT");
    ContainsMiddle("-----", "BEGIN CERTIFICATE", "-----" + tail);
    assert PEM_BEGIN + tail == "-----" + "BEGIN CERTIFICATE" + ("-----" + tail);
  }

  lemma {:induction false} TailEnds(chunks: seq<string>, eol: string)
    ensures PemTail(chunks, eol) != "" && PemTail(chunks, eol)[|PemTail(chunks, eol)| - 1] == '-'
  {
    if chunks != [] { TailEnds(chunks[1..], eol); }
  }

  lemma {:induction false} JoinedHasNoSpace(chunks: seq<string>)
    requires forall chunk :: chunk in chunks ==> NoSpace(chunk)
    ensures NoSpace(JoinChunks(chunks))
  {
    if chunks != [] {
      assert chunks[0] in chunks && forall c :: c in chunks[1..] ==> c in chunks;
      JoinedHasNoSpace(chunks[1..]);
    }
  }

  lemma {:induction false} MarkedIsBody(v: string)
    requires Strip(v) == v && Contains(v, "BEGIN CERTIFICATE")
    ensures NormaliseCert(v) == PemBody(Lines(v))
  {
  }

  lemma {:induction false} PemIsMarked(eol: string, tail: string)
    requires tail != "" && tail[|tail| - 1] == '-'
    ensures Strip(PEM_BEGIN + eol + tail) == PEM_BEGIN + eol + tail
    ensures Contains(PEM_BEGIN + eol + tail, "BEGIN CERTIFICATE")
  {
    BeginMarker(eol + tail);
    assert PEM_BEGIN + eol + tail == PEM_BEGIN + (eol + tail);
    var text := PEM_BEGIN + eol + tail;
    assert PEM_BEGIN[0] == '-' && text[0] == PEM_BEGIN[0] && text[|text| - 1] == tail[|tail| - 1];
    StripTrims(text);
  }

  lemma {:induction false} PemBodyAfterBegin(eol: string, tail: string)
    requires eol != "" && AllBreaks(eol)
    ensures PemBody(Lines(PEM_BEGIN + eol + tail)) == PemBody(Lines(tail))
  {
    BeginMarker("");
    FirstLineBody(PEM_BEGIN, eol, tail);
  }

  /** A certificate pasted as PEM, whatever its line ends, and the same one as bare base64 are stored alike. */
  lemma {:induction false} PemAndBareAgree(chunks: seq<string>, eol: string)
    requires eol != "" && AllBreaks(eol) && forall chunk :: chunk in chunks ==> chunk != "" && NoSpace(chunk)
    ensures NormaliseCert(Pem(chunks, eol)) == JoinChunks(chunks) == NormaliseCert(JoinChunks(chunks))
  {
    JoinedHasNoSpace(chunks);
    CertFixedExactly(JoinChunks(chunks));
    TailEnds(chunks, eol);
    PemIsMarked(eol, PemTail(chunks, eol));
    MarkedIsBody(Pem(chunks, eol));
    PemBodyAfterBegin(eol, PemTail(chunks, eol));
    TailBody(chunks, eol);
  }

  /** A PEM body line with a space inside: the first pass keeps the space and the second drops it. */
  lemma {:induction false} CertOnePassIsNotEnough()
    ensures NormaliseCert(Pem(["a b"], "\n")) == "a b" && NormaliseCert("a b") == "ab"
  {
    PemOfLine("a b");
    assert Strip("a b") == "a b" by { StripTrims("a b"); }
    ShortLacksMarker("a b", "BEGIN CERTIFICATE");
    CompactOf("a b", "ab");
  }

  lemma {:induction false} CompactOf(s: string, r: string)
    requires s == "a b" && r == "ab"
    ensures Compact(s) == r
  {
    assert s[1..] == " b" && " b"[1..] == "b" && "b"[1..] == "";
    assert Compact("b") == "b" && Compact(" b") == "b";
  }

  lemma {:induction false} ShortLacksMarker(s: string, part: string)
    requires |s| < |part|
    ensures !Contains(s, part)
  {
  }

  lemma {:induction false} PemOfLine(line: string)
    requires line != "" && |line| < 8 && Trimmed(line) && forall c :: c in line ==> !IsLineBreak(c)
    ensures NormaliseCert(Pem([line], "\n")) == line
  {
    hide Lines, Strip, Skipped, Contains, NormaliseCert;
    TailEnds([line], "\n");
    PemIsMarked("\n", PemTail([line], "\n"));
    MarkedIsBody(Pem([line], "\n"));
    PemBodyAfterBegin("\n", PemTail([line], "\n"));
    FirstLineBody(line, "\n", PEM_END);
    EndMarkerDropped();
    StripTrims(line);
    ShortKept(line);
    assert PemTail([line], "\n") == line + "\n" + PEM_END;
    assert PemBody(Lines(PemTail([line], "\n"))) == line + "";
  }

  lemma {:induction false} ShortKept(line: string)
    requires line != "" && |line| < 8 && Strip(line) == line
    ensures !Skipped(line)
  {
    ShortLacksMarker(line, "BEGIN CERT");
    ShortLacksMarker(line, "END CERT");
  }

  // --- the models -----------------------------------------------------------------------------

  predicate SameType(default: Value, v: Value) {
    match default
    case Str(_) => v.Str?
    case Flag(_) => v.Flag?
    case _ => v.Num? || v.Nil?
  }

  /** One field through its type check and validator. */
  function Validated(m: Model, field: string, v: Value): Option<Value>
    requires field in m.defaults
  {
    if !SameType(m.defaults[field], v) then None
    else if !v.Str? then Some(v)
    else match m.normal(field, v.s)
         case None => None
         case Some(s) => Some(Str(s))
  }

  /** `model(**data).model_dump()`: unknown keys dropped, missing ones defaulted. */
  function Validate(m: Model, data: Config): (r: Option<Config>)
    ensures r.Some? ==> r.value.Keys == m.defaults.Keys
  {
    if exists f :: f in m.defaults && f in data && Validated(m, f, data[f]).None? then None
    else Some(map f | f in m.defaults :: if f in data then Validated(m, f, data[f]).value else m.defaults[f])
  }

  /** Never exported, whatever the protocol. */
  function Excluded(models: Models): set<string> {
    set name, f | name in models && f in models[name].secrets :: f
  }

  /** Secrets are blank text fields no validator touches, and generated keys are secrets. */
  predicate GoodModel(m: Model) {
    && (forall f :: f in m.secrets ==> f in m.defaults && m.defaults[f] == Str(""))
    && (forall f :: f in m.generated ==> f in m.secrets)
  }

  ghost predicate SecretsUnvalidated(m: Model) {
    forall f, s :: f in m.secrets ==> m.normal(f, s) == Some(s)
  }

  /** No protocol's secret is another protocol's ordinary setting. */
  ghost predicate GoodModels(models: Models) {
    forall name :: name in models ==>
      && GoodModel(models[name]) && SecretsUnvalidated(models[name])
      && Excluded(models) * models[name].defaults.Keys == models[name].secrets
  }

  // --- the deployed models ------------------------------------------------------------------------

  function OidcNormal(field: string, s: string): Option<string> {
    if field == "issuer" then Some(StripWellknown(s))
    else if field == "prompt" then
      if s in {"", "login", "consent", "select_account", "none"} then Some(s) else None
    else Some(s)
  }

  function SamlNormal(field: string, s: string): Option<string> {
    if field == "idp_x509_cert" || field == "sp_x509_cert" then Some(NormaliseCert(s)) else Some(s)
  }

  const OIDC := Model(
    map[
      "issuer" := Str(""), "client_id" := Str(""), "client_secret" := Str(""),
      "scopes" := Str("openid profile email"), "use_pkce" := Flag(true), "prompt" := Str(""),
      "acr_values" := Str(""), "max_age" := Nil, "claims_request" := Str(""),
      "federated_logout" := Flag(true), "request_refresh_token" := Flag(false),
      "store_rotated_refresh_token" := Flag(true), "use_dpop" := Flag(false),
      "dpop_private_key" := Str(""), "accept_encrypted_id_token" := Flag(false),
      "jwe_private_key" := Str(""), "allow_insecure_http" := Flag(false)],
    {"client_secret", "dpop_private_key", "jwe_private_key"},
    map["dpop_private_key" := "use_dpop", "jwe_private_key" := "accept_encrypted_id_token"],
    OidcNormal)

  const SAML := Model(
    map[
      "idp_entity_id" := Str(""), "idp_sso_url" := Str(""), "idp_slo_url" := Str(""),
      "idp_x509_cert" := Str(""), "sp_entity_id" := Str(""), "sp_x509_cert" := Str(""),
      "sp_private_key" := Str(""),
      "name_id_format" := Str("urn:oasis:names:tc:SAML:1.1:nameid-format:emailAddress"),
      "want_assertions_signed" := Flag(true), "want_assertions_encrypted" := Flag(false),
      "want_nameid_encrypted" := Flag(false), "want_response_signed" := Flag(false),
      "sign_authn_requests" := Flag(false), "allow_unsolicited" := Flag(false),
      "force_authn" := Flag(false), "requested_authn_context" := Str("")],
    {"sp_private_key"},
    map[],
    SamlNormal)

  const SETTINGS_MODELS: Models := map["oidc" := OIDC, "saml" := SAML]

  lemma {:induction false} OidcGood()
    ensures GoodModel(OIDC) && SecretsUnvalidated(OIDC)
  {
  }

  lemma {:induction false} SamlGood()
    ensures GoodModel(SAML) && SecretsUnvalidated(SAML)
  {
  }

  lemma {:induction false} SamlLacksOidcSecrets()
    ensures "client_secret" !in SAML.defaults
    ensures "dpop_private_key" !in SAML.defaults
    ensures "jwe_private_key" !in SAML.defaults
  {
  }

  lemma {:induction false} OidcLacksSamlSecret()
    ensures "sp_private_key" !in OIDC.defaults
  {
  }

  lemma {:induction false} PairIsGood(name1: string, m1: Model, name2: string, m2: Model)
    requires name1 != name2 && GoodModel(m1) && SecretsUnvalidated(m1) && GoodModel(m2) && SecretsUnvalidated(m2)
    requires (forall f :: f in m2.secrets ==> f !in m1.defaults) && (forall f :: f in m1.secrets ==> f !in m2.defaults)
    ensures GoodModels(map[name1 := m1, name2 := m2])
  {
    var models: Models := map[name1 := m1, name2 := m2];
    assert Excluded(models) == m1.secrets + m2.secrets by {
      assert name1 in models && name2 in models;
    }
  }

  /** The deployed models satisfy what the laws about connections ask of a model. */
  lemma {:induction false} DeployedModelsGood()
    ensures GoodModels(SETTINGS_MODELS)
  {
    OidcGood();
    SamlGood();
    SamlLacksOidcSecrets();
    OidcLacksSamlSecret();
    PairIsGood("oidc", OIDC, "saml", SAML);
  }

  // --- settings nobody has touched, and the validated ones -------------------------------------------

  /** The switches of OIDC that are on until someone turns them off. */
  lemma {:induction false} OidcSwitches(f: string)
    requires f in OIDC.defaults && OIDC.defaults[f].Flag?
    ensures OIDC.defaults[f].b <==> f in {"use_pkce", "federated_logout", "store_rotated_refresh_token"}
  {
  }

  /** For SAML it is one. */
  lemma {:induction false} SamlSwitches(f: string)
    requires f in SAML.defaults && SAML.defaults[f].Flag?
    ensures SAML.defaults[f].b <==> f == "want_assertions_signed"
  {
  }

  lemma {:induction false} Protocols()
    ensures SETTINGS_MODELS.Keys == {"oidc", "saml"} && SETTINGS_MODELS["oidc"] == OIDC && SETTINGS_MODELS["saml"] == SAML
  {
    hide OIDC, SAML;
  }

  /** The OIDC settings that hold text, and the one that may hold nothing. */
  lemma {:induction false} OidcTexts(f: string)
    requires f in OIDC.defaults
    ensures OIDC.defaults[f].Str?
       <==> f in {"issuer", "client_id", "client_secret", "scopes", "prompt", "acr_values", "claims_request", "dpop_private_key",
                  "jwe_private_key"}
    ensures OIDC.defaults[f].Nil? <==> f == "max_age"
  {
  }

  lemma {:induction false} SamlTexts(f: string)
    requires f in SAML.defaults
    ensures SAML.defaults[f].Str?
       <==> f in {"idp_entity_id", "idp_sso_url", "idp_slo_url", "idp_x509_cert", "sp_entity_id", "sp_x509_cert", "sp_private_key",
                  "name_id_format", "requested_authn_context"}
  {
  }

  lemma {:induction false} OidcValidates()
    ensures "issuer" in OIDC.defaults && OIDC.defaults["issuer"].Str?
    ensures "prompt" in OIDC.defaults && OIDC.defaults["prompt"].Str?
    ensures "use_pkce" in OIDC.defaults && OIDC.defaults["use_pkce"].Flag?
    ensures OIDC.normal == OidcNormal
  {
  }

  lemma {:induction false} SamlValidates()
    ensures "idp_x509_cert" in SAML.defaults && SAML.defaults["idp_x509_cert"].Str?
    ensures "sp_x509_cert" in SAML.defaults && SAML.defaults["sp_x509_cert"].Str?
    ensures SAML.normal == SamlNormal
  {
  }

  lemma {:induction false} OneSetting(m: Model, field: string, v: Value)
    requires field in m.defaults
    ensures var r := Validate(m, map[field := v]);
            if Validated(m, field, v).None? then r == None
            else r == Some(m.defaults[field := Validated(m, field, v).value])
  {
    hide Validated;
    var data: Config := map[field := v];
    if Validated(m, field, v).None? {
      assert field in m.defaults && field in data && Validated(m, field, data[field]).None?;
    } else {
      var r, expected := Validate(m, data).value, m.defaults[field := Validated(m, field, v).value];
      assert r.Keys == expected.Keys;
      forall f | f in r ensures r[f] == expected[f] {
      }
      assert r == expected;
    }
  }

  /** Validating one submitted setting normalises it or refuses it; the others keep their defaults. */
  lemma {:induction false} SubmittedSetting(s: string, cert: string)
    requires cert in {"idp_x509_cert", "sp_x509_cert"}
    ensures "issuer" in OIDC.defaults && "prompt" in OIDC.defaults && cert in SAML.defaults
    ensures Validate(OIDC, map["issuer" := Str(s)]) == Some(OIDC.defaults["issuer" := Str(StripWellknown(s))])
    ensures Validate(OIDC, map["prompt" := Str(s)]) ==
            if s in {"", "login", "consent", "select_account", "none"} then Some(OIDC.defaults["prompt" := Str(s)]) else None
    ensures Validate(SAML, map[cert := Str(s)]) == Some(SAML.defaults[cert := Str(NormaliseCert(s))])
    ensures Validate(OIDC, map["use_pkce" := Str(s)]) == None
  {
    hide StripWellknown, NormaliseCert, OIDC, SAML, Validate;
    OidcValidates();
    SamlValidates();
    OneSetting(OIDC, "issuer", Str(s));
    OneSetting(OIDC, "prompt", Str(s));
    OneSetting(OIDC, "use_pkce", Str(s));
    OneSetting(SAML, cert, Str(s));
  }
}
