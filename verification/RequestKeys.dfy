/** What the request limiter keys on: the client address behind a number of trusted proxies, and a field
    of the request body, found the way the handler will find it. */
module RequestKeys {
  import opened Prelude

  // --- X-Forwarded-For ---

  predicate IsSpace(c: char) {
    c == ' ' || c == '\t' || c == '\n' || c == '\r'
  }

  function TrimLeft(s: string): string {
    if s != "" && IsSpace(s[0]) then TrimLeft(s[1..]) else s
  }

  function TrimRight(s: string): string {
    if s != "" && IsSpace(s[|s| - 1]) then TrimRight(s[..|s| - 1]) else s
  }

  function Trim(s: string): string {
    TrimRight(TrimLeft(s))
  }

  /** The parts of a line that begins with `c`, from those of the rest. */
  function Before(c: char, parts: seq<string>): (r: seq<string>)
    requires parts != []
    ensures r != []
  {
    if c == ',' then [""] + parts else [[c] + parts[0]] + parts[1..]
  }

  function Split(s: string): (parts: seq<string>)
    ensures parts != []
  {
    if s == "" then [""] else Before(s[0], Split(s[1..]))
  }

  lemma BeforeBoth(c: char, parts: seq<string>, more: seq<string>)
    requires parts != []
    ensures Before(c, parts + more) == Before(c, parts) + more
  {
    assert (parts + more)[1..] == parts[1..] + more;
  }

  lemma {:induction false} SplitJoined(a: string, b: string)
    ensures Split(a + "," + b) == Split(a) + Split(b)
    decreases |a|
  {
    var s := a + "," + b;
    if a == "" {
      assert s[1..] == b && s[0] == ',';
    } else {
      SplitJoined(a[1..], b);
      assert s[1..] == a[1..] + "," + b && s[0] == a[0];
      BeforeBoth(a[0], Split(a[1..]), Split(b));
    }
  }

  lemma {:induction false} SplitWhole(s: string)
    requires ',' !in s
    ensures Split(s) == [s]
  {
    if s != "" {
      SplitWhole(s[1..]);
      assert [s[0]] + s[1..] == s;
    }
  }

  /** The non-empty trimmed parts. */
  function Entries(parts: seq<string>): seq<string>
    decreases |parts|
  {
    if parts == [] then []
    else
      var front, last := Entries(parts[..|parts| - 1]), Trim(parts[|parts| - 1]);
      if last == "" then front else front + [last]
  }

  lemma {:induction false} EntriesOfBoth(a: seq<string>, b: seq<string>)
    ensures Entries(a + b) == Entries(a) + Entries(b)
    decreases |b|
  {
    if b == [] {
      assert a + b == a;
    } else {
      EntriesOfBoth(a, b[..|b| - 1]);
      assert (a + b)[..|a + b| - 1] == a + b[..|b| - 1];
    }
  }

  /** All entries of all the header's lines, left to right. */
  function Forwarded(headers: seq<string>): seq<string>
    decreases |headers|
  {
    if headers == [] then [] else Forwarded(headers[..|headers| - 1]) + Entries(Split(headers[|headers| - 1]))
  }

  /** How a proxy writes its entry: as a line of its own or at the end of the last one, with blanks around it. */
  datatype Style = Style(ownLine: bool, before: string, after: string) {
    predicate Valid() { Blank(before) && Blank(after) }
  }

  predicate Blank(pad: string) {
    forall i :: 0 <= i < |pad| ==> pad[i] in {' ', '\t', '\n', '\r'}
  }

  function Append(headers: seq<string>, ip: string, style: Style): seq<string> {
    var entry := style.before + ip + style.after;
    if headers == [] || style.ownLine then headers + [entry]
    else headers[|headers| - 1 := headers[|headers| - 1] + "," + entry]
  }

  /** A proxy's entry has no spaces around it, no comma, and is not empty. */
  predicate Clean(ip: string) {
    ip != "" && ',' !in ip && !Blank(ip[..1]) && !Blank(ip[|ip| - 1..])
  }

  lemma {:induction false} LeftPadding(pad: string, s: string)
    requires Blank(pad) && (s == "" || !Blank(s[..1]))
    ensures TrimLeft(pad + s) == s
    decreases |pad|
  {
    if pad == "" {
      assert pad + s == s;
    } else {
      assert (pad + s)[1..] == pad[1..] + s;
      LeftPadding(pad[1..], s);
    }
  }

  lemma {:induction false} RightPadding(s: string, pad: string)
    requires Blank(pad) && (s == "" || !Blank(s[|s| - 1..]))
    ensures TrimRight(s + pad) == s
    decreases |pad|
  {
    if pad == "" {
      assert s + pad == s;
    } else {
      assert (s + pad)[..|s + pad| - 1] == s + pad[..|pad| - 1];
      RightPadding(s, pad[..|pad| - 1]);
    }
  }

  lemma PaddedEntry(ip: string, style: Style)
    requires Clean(ip) && style.Valid()
    ensures Entries(Split(style.before + ip + style.after)) == [ip]
  {
    var entry := style.before + ip + style.after;
    assert ',' !in style.before && ',' !in style.after;
    SplitWhole(entry);
    assert entry == style.before + (ip + style.after) && (ip + style.after)[..1] == ip[..1];
    LeftPadding(style.before, ip + style.after);
    RightPadding(ip, style.after);
    assert Trim(entry) == ip;
    assert Entries([entry]) == Entries([]) + [ip];
  }

  /** A part that is blank is no entry. */
  lemma BlankPartsAreIgnored(a: seq<string>, pad: string, b: seq<string>)
    requires Blank(pad)
    ensures Entries(a + [pad] + b) == Entries(a + b)
  {
    LeftPadding(pad, "");
    assert pad + "" == pad && Trim(pad) == "";
    assert Entries([pad]) == Entries([]) == [];
    EntriesOfBoth(a + [pad], b);
    EntriesOfBoth(a, [pad]);
    EntriesOfBoth(a, b);
  }

  lemma AppendedEntry(headers: seq<string>, ip: string, style: Style)
    requires Clean(ip) && style.Valid()
    ensures Forwarded(Append(headers, ip, style)) == Forwarded(headers) + [ip]
  {
    PaddedEntry(ip, style);
    var entry := style.before + ip + style.after;
    if headers == [] || style.ownLine {
      assert (headers + [entry])[..|headers|] == headers;
    } else {
      var last := headers[|headers| - 1];
      assert Append(headers, ip, style)[..|headers| - 1] == headers[..|headers| - 1];
      SplitJoined(last, entry);
      EntriesOfBoth(Split(last), Split(entry));
    }
  }

  /** A chain of proxies, each adding its entry in its own way. */
  function AppendAll(headers: seq<string>, ips: seq<string>, styles: seq<Style>): seq<string>
    requires |ips| == |styles|
    decreases |ips|
  {
    if ips == [] then headers
    else Append(AppendAll(headers, ips[..|ips| - 1], styles[..|ips| - 1]), ips[|ips| - 1], styles[|ips| - 1])
  }

  ghost predicate Proxies(ips: seq<string>, styles: seq<Style>) {
    |ips| == |styles| && forall i :: 0 <= i < |ips| ==> Clean(ips[i]) && styles[i].Valid()
  }

  lemma OneEntryMore(before: seq<string>, ips: seq<string>)
    requires ips != []
    ensures before + ips == before + ips[..|ips| - 1] + [ips[|ips| - 1]]
  {
  }

  lemma {:induction false} AppendedEntries(headers: seq<string>, ips: seq<string>, styles: seq<Style>)
    requires Proxies(ips, styles)
    ensures Forwarded(AppendAll(headers, ips, styles)) == Forwarded(headers) + ips
    decreases |ips|
  {
    if ips != [] {
      var n := |ips| - 1;
      AppendedEntries(headers, ips[..n], styles[..n]);
      AppendedEntry(AppendAll(headers, ips[..n], styles[..n]), ips[n], styles[n]);
      OneEntryMore(Forwarded(headers), ips);
    } else {
      assert Forwarded(headers) + [] == Forwarded(headers);
    }
  }

  /** `parse` is the address parser: the address in its own spelling, or `None`. `peer` is the TCP peer. */
  function ClientIP(headers: seq<string>, hops: int, peer: string, parse: string -> Option<string>): string {
    var entries := Forwarded(headers);
    if hops > 0 && |entries| >= hops && parse(entries[|entries| - hops]).Some?
    then parse(entries[|entries| - hops]).value
    else peer
  }

  lemma CountedFromTheRight(headers: seq<string>, before: seq<string>, ips: seq<string>, hops: nat, peer: string,
                            parse: string -> Option<string>)
    requires 1 <= hops <= |ips| && Forwarded(headers) == before + ips
    ensures ClientIP(headers, hops, peer, parse)
            == if parse(ips[|ips| - hops]).Some? then parse(ips[|ips| - hops]).value else peer
  {
    assert (before + ips)[|before + ips| - hops] == ips[|ips| - hops];
  }

  /** Behind at least as many proxies as are trusted, the client address is what the outermost trusted one
      saw: nothing the caller puts in the header, in however many lines, changes it. */
  lemma TheCallerCannotChooseTheClientIP(headers: seq<string>, ips: seq<string>, styles: seq<Style>, hops: nat, peer: string,
                                         parse: string -> Option<string>)
    requires Proxies(ips, styles) && 1 <= hops <= |ips|
    ensures ClientIP(AppendAll(headers, ips, styles), hops, peer, parse)
            == if parse(ips[|ips| - hops]).Some? then parse(ips[|ips| - hops]).value else peer
  {
    AppendedEntries(headers, ips, styles);
    CountedFromTheRight(AppendAll(headers, ips, styles), Forwarded(headers), ips, hops, peer, parse);
  }

  /** With no proxy trusted the header is not looked at, and when fewer proxies have added to an empty header
      than are trusted, it is not believed: the client is the peer. */
  lemma WithTooFewProxiesTheClientIsThePeer(headers: seq<string>, ips: seq<string>, styles: seq<Style>, hops: int, peer: string,
                                            parse: string -> Option<string>)
    requires Proxies(ips, styles)
    ensures hops <= 0 ==> ClientIP(headers, hops, peer, parse) == peer
    ensures |ips| < hops ==> ClientIP(AppendAll([], ips, styles), hops, peer, parse) == peer
  {
    AppendedEntries([], ips, styles);
    assert Forwarded([]) + ips == ips;
  }

  method ResolveClientIP(headers: seq<string>, hops: int, peer: string, parse: string -> Option<string>) returns (ip: string)
    ensures ip == ClientIP(headers, hops, peer, parse)
  {
    if hops > 0 {
      var entries: seq<string> := [];
      for i := 0 to |headers|
        invariant entries == Forwarded(headers[..i])
      {
        var parts := Split(headers[i]);
        ghost var before := entries;
        for j := 0 to |parts|
          invariant entries == before + Entries(parts[..j])
        {
          assert parts[..j + 1][..j] == parts[..j];
          var part := Trim(parts[j]);
          if part != "" {
            entries := entries + [part];
          }
        }
        assert parts[..|parts|] == parts && headers[..i + 1][..i] == headers[..i];
      }
      assert headers[..|headers|] == headers;
      if |entries| >= hops {
        var parsed := parse(entries[|entries| - hops]);
        if parsed.Some? {
          return parsed.value;
        }
      }
    }
    ip := peer;
  }

  // --- a field of the body ---

  const MAX_BODY := 0x10_0000

  datatype Json = Text(text: string) | Null | Value   // `Value`: anything a string field cannot take

  datatype Entry = Entry(key: string, value: Json)

  function LowerChar(c: char): char {
    if 'A' <= c <= 'Z' then (c as int + 32) as char else c
  }

  function Lower(s: string): string {
    if s == "" then "" else [LowerChar(s[0])] + Lower(s[1..])
  }

  predicate SameLetter(c: char, d: char) {
    c == d || ('A' <= c <= 'Z' && d as int == c as int + 32) || ('A' <= d <= 'Z' && c as int == d as int + 32)
  }

  /** Two keys that differ at most in the case of their letters. */
  predicate SameKey(a: string, b: string) {
    |a| == |b| && forall i :: 0 <= i < |a| ==> SameLetter(a[i], b[i])
  }

  lemma {:induction false} LowerTellsKeysApart(a: string, b: string)
    ensures Lower(a) == Lower(b) <==> SameKey(a, b)
  {
    if a != "" && b != "" {
      LowerTellsKeysApart(a[1..], b[1..]);
      assert Lower(a)[1..] == Lower(a[1..]) && Lower(b)[1..] == Lower(b[1..]);
      assert SameKey(a, b) <==> SameLetter(a[0], b[0]) && SameKey(a[1..], b[1..]) by {
        if SameLetter(a[0], b[0]) && SameKey(a[1..], b[1..]) {
          forall i | 0 <= i < |a| ensures SameLetter(a[i], b[i]) {
            assert i > 0 ==> a[i] == a[1..][i - 1] && b[i] == b[1..][i - 1];
          }
        }
      }
      assert Lower(a) == [LowerChar(a[0])] + Lower(a[1..]) && Lower(b) == [LowerChar(b[0])] + Lower(b[1..]);
    }
  }

  /** What decoding the object into a struct with one string field leaves in it: keys match without
      regard to case, a later match overwrites an earlier one, null changes nothing. */
  datatype Decoded = Unset | Set(text: string) | Mismatch

  function Take(value: Json, so: Decoded): Decoded {
    match value
    case Text(text) => if so.Mismatch? then so else Set(text)
    case Null => so
    case Value => Mismatch
  }

  function Decode(entries: seq<Entry>, field: string): Decoded
    decreases |entries|
  {
    if entries == [] then Unset
    else
      var so, last := Decode(entries[..|entries| - 1], field), entries[|entries| - 1];
      if SameKey(last.key, field) then Take(last.value, so) else so
  }

  predicate Ambiguous(entries: seq<Entry>) {
    exists i, j | 0 <= i < j < |entries| :: SameKey(entries[i].key, entries[j].key)
  }

  datatype Peeked = Found(text: string) | NotFound | Refused

  /** The peek must say what the handler will read: found when it will have a text (an empty one for
      null), refused when it depends on more than one entry. */
  ghost predicate Agrees(entries: seq<Entry>, field: string, p: Peeked) {
    && (p.Refused? <==> Ambiguous(entries))
    && (!p.Refused? ==>
          match Decode(entries, field)
          case Set(text) => p == Found(text)
          case Mismatch => p == NotFound
          case Unset => p == NotFound || p == Found(""))
  }

  lemma SameKeyAsTheSame(a: string, b: string, c: string)
    ensures SameKey(a, c) && SameKey(b, c) ==> SameKey(a, b)
  {
    LowerTellsKeysApart(a, c);
    LowerTellsKeysApart(b, c);
    LowerTellsKeysApart(a, b);
  }

  lemma {:induction false} NoMatchDecodesToNothing(entries: seq<Entry>, field: string)
    requires forall e :: e in entries ==> !SameKey(e.key, field)
    ensures Decode(entries, field) == Unset
    decreases |entries|
  {
    if entries != [] {
      NoMatchDecodesToNothing(entries[..|entries| - 1], field);
    }
  }

  /** Where no key repeats, the one matching entry is what the handler reads. */
  lemma {:induction false} TheOneMatchDecodes(entries: seq<Entry>, field: string, i: nat)
    requires !Ambiguous(entries) && i < |entries| && SameKey(entries[i].key, field)
    ensures match entries[i].value
            case Text(text) => Decode(entries, field) == Set(text)
            case Null => Decode(entries, field) == Unset
            case Value => Decode(entries, field) == Mismatch
    decreases |entries|
  {
    var n := |entries| - 1;
    var front := entries[..n];
    if i < n {
      assert !Ambiguous(front) by {
        assert forall j, k | 0 <= j < k < |front| :: front[j] == entries[j] && front[k] == entries[k];
      }
      TheOneMatchDecodes(front, field, i);
    } else {
      forall e | e in front ensures !SameKey(e.key, field) {
        var j :| 0 <= j < |front| && front[j] == e;
        assert !SameKey(entries[j].key, entries[n].key);
        SameKeyAsTheSame(entries[j].key, entries[n].key, field);
      }
      NoMatchDecodesToNothing(front, field);
    }
  }

  class Body {
    var unread: seq<bv8>

    constructor (bytes: seq<bv8>)
      ensures unread == bytes
    {
      unread := bytes;
    }

    /** Reads up to `limit` bytes, or fewer if the stream breaks. */
    method ReadAll(limit: nat) returns (buffered: seq<bv8>, failed: bool)
      modifies this
      ensures buffered + unread == old(unread) && |buffered| <= limit
      ensures !failed ==> |buffered| == if |old(unread)| < limit then |old(unread)| else limit
    {
      failed := *;
      var n: int := *;
      var whole: nat := if |unread| < limit then |unread| else limit;
      n := if failed && 0 <= n < whole then n else whole;
      buffered, unread := unread[..n], unread[n..];
    }
  }

  /** Whatever it answers, the handler still reads the whole body; and for a body it can parse, within the
      size the handlers accept, it answers as the handler will read it. `parse` is the JSON parser. */
  method PeekRequestField(body: Body, field: string, parse: seq<bv8> -> Option<seq<Entry>>) returns (p: Peeked, failed: bool)
    modifies body
    ensures body.unread == old(body.unread)
    ensures !failed && |body.unread| <= MAX_BODY && parse(body.unread).Some? ==> Agrees(parse(body.unread).value, field, p)
    ensures failed || |body.unread| > MAX_BODY || parse(body.unread).None? ==> p == NotFound
  {
    var buffered;
    buffered, failed := body.ReadAll(MAX_BODY + 1);
    body.unread := buffered + body.unread;
    if failed || |buffered| > MAX_BODY {
      return NotFound, failed;
    }
    assert buffered == body.unread;
    var parsed := parse(buffered);
    if parsed.None? {
      return NotFound, failed;
    }
    p := Peek(parsed.value, field);
  }

  method Peek(entries: seq<Entry>, field: string) returns (p: Peeked)
    ensures Agrees(entries, field, p)
  {
    var seen: set<string> := {};
    for i := 0 to |entries|
      invariant forall k :: k in seen <==> exists j | 0 <= j < i :: Lower(entries[j].key) == k
      invariant forall j, k | 0 <= j < k < i :: !SameKey(entries[j].key, entries[k].key)
    {
      var folded := Lower(entries[i].key);
      forall j | 0 <= j < i ensures Lower(entries[j].key) == folded <==> SameKey(entries[j].key, entries[i].key) {
        LowerTellsKeysApart(entries[j].key, entries[i].key);
      }
      if folded in seen {
        return Refused;
      }
      seen := seen + {folded};
    }
    assert !Ambiguous(entries);
    for i := 0 to |entries|
      invariant forall j | 0 <= j < i :: !SameKey(entries[j].key, field)
    {
      LowerTellsKeysApart(entries[i].key, field);
      if Lower(entries[i].key) == Lower(field) {
        TheOneMatchDecodes(entries, field, i);
        match entries[i].value
        case Text(text) => return Found(text);
        case Null => return Found("");
        case Value => return NotFound;
      }
    }
    NoMatchDecodesToNothing(entries, field);
    p := NotFound;
  }
}
