/** The signed ticket that carries an account claim from the refused sign-in to the code that settles it. */
module ClaimTicket {
  import opened Prelude

  const SECOND := 1_000_000_000          // nanoseconds
  const OTP_EXPIRY := 600 * SECOND

  type Byte = b: nat | b < 256

  /** `expiresAt` is in whole seconds. */
  datatype Payload = Payload(email: string, provider: string, subject: string, expiresAt: int)

  /** What the cryptography and the encodings are assumed to do: a body decodes to what was encoded in it,
      is not empty and, being base64url (section 5 of RFC 4648), has no dot; a signature is not empty. */
  datatype Codec = Codec(encode: Payload -> string, decode: string -> Option<Payload>, sign: string -> seq<Byte>) {
    ghost predicate Valid() {
      && (forall p :: decode(encode(p)) == Some(p) && encode(p) != "" && '.' !in encode(p))
      && (forall body :: sign(body) != [])
    }
  }

  datatype Parsed = Claim(payload: Payload) | Invalid

  // --- hexadecimal ---

  function Digit(n: nat): char
    requires n < 16
  {
    if n < 10 then ('0' as int + n) as char else ('a' as int + n - 10) as char
  }

  function Undigit(c: char): Option<nat> {
    if '0' <= c <= '9' then Some(c as int - '0' as int)
    else if 'a' <= c <= 'f' then Some(c as int - 'a' as int + 10)
    else if 'A' <= c <= 'F' then Some(c as int - 'A' as int + 10)
    else None
  }

  function Hex(bytes: seq<Byte>): string {
    if bytes == [] then "" else [Digit(bytes[0] / 16), Digit(bytes[0] % 16)] + Hex(bytes[1..])
  }

  function Unhex(s: string): Option<seq<Byte>> {
    if s == "" then Some([])
    else if |s| == 1 || Undigit(s[0]).None? || Undigit(s[1]).None? then None
    else
      match Unhex(s[2..])
      case None => None
      case Some(rest) => Some([Undigit(s[0]).value * 16 + Undigit(s[1]).value] + rest)
  }

  lemma UnhexByte(b: Byte, rest: string)
    requires Unhex(rest).Some?
    ensures Unhex([Digit(b / 16), Digit(b % 16)] + rest) == Some([b] + Unhex(rest).value)
  {
    var s := [Digit(b / 16), Digit(b % 16)] + rest;
    assert s[2..] == rest && s[0] == Digit(b / 16) && s[1] == Digit(b % 16);
    assert Undigit(s[0]) == Some(b / 16) && Undigit(s[1]) == Some(b % 16);
  }

  lemma {:induction false} HexRoundTrip(bytes: seq<Byte>)
    ensures Unhex(Hex(bytes)) == Some(bytes) && |Hex(bytes)| == 2 * |bytes|
  {
    if bytes != [] {
      HexRoundTrip(bytes[1..]);
      UnhexByte(bytes[0], Hex(bytes[1..]));
      assert [bytes[0]] + bytes[1..] == bytes;
    }
  }

  predicate SameDigit(c: char, d: char) {
    c == d || ('a' <= c <= 'f' && c as int == d as int + 32) || ('a' <= d <= 'f' && d as int == c as int + 32)
  }

  /** The digits may be in either case. */
  lemma {:induction false} HexInEitherCase(s: string, t: string)
    requires |s| == |t| && forall i :: 0 <= i < |s| ==> SameDigit(s[i], t[i])
    ensures Unhex(s) == Unhex(t)
  {
    if |s| >= 2 {
      HexInEitherCase(s[2..], t[2..]);
      assert SameDigit(s[0], t[0]) && SameDigit(s[1], t[1]);
    }
  }

  // --- strings.Cut ---

  /** The part before the first dot, the part after it, and whether there is one. */
  function Cut(s: string): (r: (string, string, bool))
    ensures r.2 <==> '.' in s
    ensures if r.2 then s == r.0 + "." + r.1 && '.' !in r.0 else r.0 == s
  {
    if s == "" then ("", "", false)
    else if s[0] == '.' then ("", s[1..], true)
    else
      var rest := Cut(s[1..]);
      ([s[0]] + rest.0, rest.1, rest.2)
  }

  /** However many dots follow, the first one is the separator. */
  lemma {:induction false} CutAtTheFirstDot(body: string, rest: string)
    requires '.' !in body
    ensures Cut(body + "." + rest) == (body, rest, true)
  {
    if body == "" {
      assert (body + "." + rest)[1..] == rest;
    } else {
      CutAtTheFirstDot(body[1..], rest);
      assert (body + "." + rest)[1..] == body[1..] + "." + rest;
      assert [body[0]] + body[1..] == body;
    }
  }

  // --- accountclaim.go ---

  function Minted(email: string, provider: string, subject: string, now: nat): Payload {
    Payload(email, provider, subject, (now + OTP_EXPIRY) / SECOND)
  }

  function Mint(codec: Codec, email: string, provider: string, subject: string, now: nat): string {
    var body := codec.encode(Minted(email, provider, subject, now));
    body + "." + Hex(codec.sign(body))
  }

  function Parse(codec: Codec, ticket: string, now: nat): Parsed {
    var (body, sig, found) := Cut(ticket);
    if !found || body == "" || sig == "" then Invalid
    else if Unhex(sig) != Some(codec.sign(body)) then Invalid
    else
      match codec.decode(body)
      case None => Invalid
      case Some(p) =>
        if p.email == "" || p.subject == "" || p.provider == "" || now > p.expiresAt * SECOND then Invalid
        else Claim(p)
  }

  /** A minted ticket parses to exactly what it was minted for, or not at all; and it does so until the
      code sent with it expires, less the part of a second that its own expiry drops. */
  lemma AMintedTicketParses(codec: Codec, email: string, provider: string, subject: string, minted: nat, now: nat)
    requires codec.Valid()
    ensures var r := Parse(codec, Mint(codec, email, provider, subject, minted), now);
            var p := Minted(email, provider, subject, minted);
            && (r == Claim(p) || r == Invalid)
            && (r == Claim(p) <==> email != "" && provider != "" && subject != ""
                                   && now <= minted + 600 * SECOND - (minted + 600 * SECOND) % SECOND)
            && (r == Claim(p) ==> r.payload.email == email && r.payload.provider == provider && r.payload.subject == subject)
  {
    var p := Minted(email, provider, subject, minted);
    var body := codec.encode(p);
    assert codec.decode(body) == Some(p) && body != "" && '.' !in body;
    var sig := codec.sign(body);
    assert sig != [];
    HexRoundTrip(sig);
    CutAtTheFirstDot(body, Hex(sig));
  }

  /** One mint, as its caller asked for it. */
  datatype Request = Request(email: string, provider: string, subject: string, at: nat) {
    function Claimed(): Payload { Minted(email, provider, subject, at) }
  }

  /** Tampering: whatever ticket is put together around a signature that was issued for `m`, it is accepted
      exactly when its body is the one signed for `m` and `m` still stands; and then it says what `m` said.
      Signatures are taken to be collision-free. */
  lemma AnIssuedSignatureCarriesOnlyItsClaim(codec: Codec, ticket: string, m: Request, now: nat)
    requires codec.Valid() && forall a, b :: codec.sign(a) == codec.sign(b) ==> a == b
    requires Cut(ticket).2 && Unhex(Cut(ticket).1) == Some(codec.sign(codec.encode(m.Claimed())))
    ensures Parse(codec, ticket, now).Claim?
            <==> Cut(ticket).0 == codec.encode(m.Claimed()) && Parse(codec, Mint(codec, m.email, m.provider, m.subject, m.at), now).Claim?
    ensures Parse(codec, ticket, now).Claim? ==> Parse(codec, ticket, now) == Claim(m.Claimed())
  {
    var body := codec.encode(m.Claimed());
    assert codec.decode(body) == Some(m.Claimed()) && body != "";
    assert codec.sign(body) != [] && Cut(ticket).1 != "";
    assert codec.sign(Cut(ticket).0) == codec.sign(body) ==> Cut(ticket).0 == body;
    AMintedTicketParses(codec, m.email, m.provider, m.subject, m.at, now);
  }

  /** So if every signature in circulation was issued for one of `issued`, nothing but those claims is ever
      accepted, each no longer than it stands. */
  lemma AcceptedTicketsWereMinted(codec: Codec, issued: set<Request>, ticket: string, now: nat)
    requires codec.Valid() && forall a, b :: codec.sign(a) == codec.sign(b) ==> a == b
    requires forall sig :: Unhex(Cut(ticket).1) == Some(sig) && (exists body :: codec.sign(body) == sig) ==>
               exists m :: m in issued && codec.sign(codec.encode(m.Claimed())) == sig
    requires Parse(codec, ticket, now).Claim?
    ensures exists m :: m in issued && Parse(codec, ticket, now) == Claim(m.Claimed()) && now <= m.at + OTP_EXPIRY
  {
    var body := Cut(ticket).0;
    var m :| m in issued && codec.sign(codec.encode(m.Claimed())) == codec.sign(body);
    AnIssuedSignatureCarriesOnlyItsClaim(codec, ticket, m, now);
    AMintedTicketParses(codec, m.email, m.provider, m.subject, m.at, now);
  }
}
