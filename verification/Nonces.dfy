/** Signed requests: what is signed, when it is accepted, and why it is accepted once. */
module Nonces {
  import opened Crypto
  import opened Text

  const CLOCK_SKEW_SECS: int := 60
  const NONCE_LEN: nat := 16

  datatype Rejection = Malformed | StaleTimestamp | Replayed | BadSignature

  datatype Request = Request(verb: string, path: string, timestamp: int, nonce: string, body: seq<Byte>)

  type Hash = h: seq<Byte> | |h| == 32 witness seq(32, _ => 0)

  /** Base64, SHA-256 and Ed25519, none of them looked into. */
  datatype Primitives = Primitives(
    decode: string -> Option<seq<Byte>>,
    hash: seq<Byte> -> Hash,
    genuine: (seq<Byte>, string, seq<Byte>) -> bool)

  // ---- what is signed -------------------------------------------------

  function HexFigure(n: nat): char
    requires n < 16
  {
    if n < 10 then '0' + n as char else 'a' + (n - 10) as char
  }

  function Hex(bytes: seq<Byte>): string {
    if bytes == [] then "" else [HexFigure(bytes[0] / 16), HexFigure(bytes[0] % 16)] + Hex(bytes[1..])
  }

  /** Method, path, timestamp, nonce and body hash, one a line. */
  function Canonical(p: Primitives, r: Request): string {
    r.verb + "\n" + (r.path + "\n" + (SignedDecimal(r.timestamp) + "\n" + (r.nonce + "\n" + Hex(p.hash(r.body)))))
  }

  /** Two lower-case hexadecimal figures a byte, the high half first. */
  lemma {:induction false} HexExactly(bytes: seq<Byte>, k: nat)
    requires k < |bytes|
    ensures |Hex(bytes)| == 2 * |bytes|
    ensures Hex(bytes)[2 * k] == "0123456789abcdef"[bytes[k] / 16]
    ensures Hex(bytes)[2 * k + 1] == "0123456789abcdef"[bytes[k] % 16]
  {
    if k > 0 {
      HexExactly(bytes[1..], k - 1);
    } else if |bytes| > 1 {
      HexExactly(bytes[1..], 0);
    }
  }

  /** What is signed, line by line: the method, the path, the time in decimal, the nonce, and the hash of
      the body in hexadecimal. */
  lemma CanonicalReads(p: Primitives, r: Request)
    ensures Canonical(p, r)
            == r.verb + "\n" + r.path + "\n" + SignedDecimal(r.timestamp) + "\n" + r.nonce + "\n" + Hex(p.hash(r.body))
    ensures |Hex(p.hash(r.body))| == 64
    ensures r.timestamp >= 0 ==>
              AllFigures(SignedDecimal(r.timestamp)) && Spelled(SignedDecimal(r.timestamp)) == r.timestamp
  {
    HexExactly(p.hash(r.body), 0);
    if r.timestamp >= 0 {
      PowExceeds(r.timestamp);
      DecimalSpells(r.timestamp, r.timestamp + 1) by { assert Pow(10, r.timestamp + 1) == 10 * Pow(10, r.timestamp); }
    }
    hide Hex, SignedDecimal;
    var a := SignedDecimal(r.timestamp) + "\n" + r.nonce + "\n" + Hex(p.hash(r.body));
    assert Canonical(p, r) == r.verb + "\n" + (r.path + "\n" + a);
  }

  predicate OneLine(text: string) {
    forall k :: 0 <= k < |text| ==> text[k] != '\n'
  }

  function FirstLine(text: string): nat {
    if text == "" || text[0] == '\n' then 0 else 1 + FirstLine(text[1..])
  }

  lemma {:induction false} FirstLineOf(x: string, xs: string)
    requires OneLine(x)
    ensures FirstLine(x + "\n" + xs) == |x|
  {
    if x == "" {
      assert x + "\n" + xs == "\n" + xs;
    } else {
      FirstLineOf(x[1..], xs);
      assert (x + "\n" + xs)[1..] == x[1..] + "\n" + xs;
    }
  }

  lemma LineEnds(x: string, xs: string, y: string, ys: string)
    requires OneLine(x) && OneLine(y) && x + "\n" + xs == y + "\n" + ys
    ensures x == y && xs == ys
  {
    FirstLineOf(x, xs);
    FirstLineOf(y, ys);
    var s := x + "\n" + xs;
    assert s[..|x|] == x && s[..|y|] == y;
    assert s[|x| + 1..] == xs && s[|y| + 1..] == ys;
  }

  lemma HexFigurePins(a: Byte, b: Byte)
    requires HexFigure(a / 16) == HexFigure(b / 16) && HexFigure(a % 16) == HexFigure(b % 16)
    ensures a == b
  {
  }

  lemma {:induction false} HexPins(a: seq<Byte>, b: seq<Byte>)
    requires Hex(a) == Hex(b)
    ensures a == b
  {
    if a != [] && b != [] {
      var s := Hex(a);
      assert s[0] == HexFigure(a[0] / 16) == HexFigure(b[0] / 16);
      assert s[1] == HexFigure(a[0] % 16) == HexFigure(b[0] % 16);
      HexFigurePins(a[0], b[0]);
      assert s[2..] == Hex(a[1..]) && s[2..] == Hex(b[1..]);
      HexPins(a[1..], b[1..]);
    }
  }

  function Breaks(text: string): nat {
    if text == "" then 0 else Breaks(text[1..]) + if text[0] == '\n' then 1 else 0
  }

  lemma {:induction false} BreaksAppend(a: string, b: string)
    ensures Breaks(a + b) == Breaks(a) + Breaks(b)
  {
    if a == "" {
      assert a + b == b;
    } else {
      BreaksAppend(a[1..], b);
      assert (a + b)[1..] == a[1..] + b;
    }
  }

  lemma BreaksJoin(a: string, b: string)
    ensures Breaks(a + "\n" + b) == Breaks(a) + 1 + Breaks(b)
  {
    BreaksAppend(a + "\n", b);
    BreaksAppend(a, "\n");
    assert "\n"[1..] == "";
    assert Breaks("\n") == 1;
  }

  lemma {:induction false} OneLineUnbroken(text: string)
    ensures OneLine(text) <==> Breaks(text) == 0
  {
    if text != "" {
      OneLineUnbroken(text[1..]);
      assert OneLine(text) <==> text[0] != '\n' && OneLine(text[1..]);
    }
  }

  lemma {:induction false} HexUnbroken(bytes: seq<Byte>)
    ensures Breaks(Hex(bytes)) == 0
  {
    if bytes != [] {
      HexUnbroken(bytes[1..]);
      var pair := [HexFigure(bytes[0] / 16), HexFigure(bytes[0] % 16)];
      BreaksAppend(pair, Hex(bytes[1..]));
      assert pair[1..] == [HexFigure(bytes[0] % 16)] && pair[1..][1..] == "";
    }
  }

  /** Four line breaks, and those of the three free fields. */
  lemma CanonicalBreaks(p: Primitives, r: Request)
    ensures Breaks(Canonical(p, r)) == 4 + Breaks(r.verb) + Breaks(r.path) + Breaks(r.nonce)
  {
    hide Breaks, Hex, SignedDecimal;
    var a4 := Hex(p.hash(r.body));
    var a3 := r.nonce + "\n" + a4;
    var a2 := SignedDecimal(r.timestamp) + "\n" + a3;
    var a1 := r.path + "\n" + a2;
    HexUnbroken(p.hash(r.body));
    SignedDecimalPins(r.timestamp, r.timestamp);
    OneLineUnbroken(SignedDecimal(r.timestamp));
    BreaksJoin(r.nonce, a4);
    BreaksJoin(SignedDecimal(r.timestamp), a3);
    BreaksJoin(r.path, a2);
    BreaksJoin(r.verb, a1);
  }

  lemma CanonicalSplits(p: Primitives, a: Request, b: Request)
    requires OneLine(a.verb) && OneLine(a.path) && OneLine(a.nonce)
    requires OneLine(b.verb) && OneLine(b.path) && OneLine(b.nonce)
    requires Canonical(p, a) == Canonical(p, b)
    ensures a.verb == b.verb && a.path == b.path && a.timestamp == b.timestamp && a.nonce == b.nonce
    ensures p.hash(a.body) == p.hash(b.body)
  {
    hide Hex, SignedDecimal;
    SignedDecimalPins(a.timestamp, b.timestamp);
    SignedDecimalPins(b.timestamp, a.timestamp);
    var a4, b4 := Hex(p.hash(a.body)), Hex(p.hash(b.body));
    var a3, b3 := a.nonce + "\n" + a4, b.nonce + "\n" + b4;
    var a2, b2 := SignedDecimal(a.timestamp) + "\n" + a3, SignedDecimal(b.timestamp) + "\n" + b3;
    LineEnds(a.verb, a.path + "\n" + a2, b.verb, b.path + "\n" + b2);
    LineEnds(a.path, a2, b.path, b2);
    LineEnds(SignedDecimal(a.timestamp), a3, SignedDecimal(b.timestamp), b3);
    LineEnds(a.nonce, a4, b.nonce, b4);
    HexPins(p.hash(a.body), p.hash(b.body));
  }

  /** A signature commits to every field.  A request whose method, path and nonce are single lines, as
      those of every request received over HTTP are, has the same signed bytes as any other request
      exactly when the two agree in method, path, timestamp, nonce and body hash. */
  lemma CanonicalPinsEveryField(p: Primitives, a: Request, b: Request)
    requires OneLine(a.verb) && OneLine(a.path) && OneLine(a.nonce)
    ensures Canonical(p, a) == Canonical(p, b) <==>
      && a.verb == b.verb && a.path == b.path && a.timestamp == b.timestamp && a.nonce == b.nonce
      && p.hash(a.body) == p.hash(b.body)
  {
    hide Hex, SignedDecimal, Canonical, Breaks;
    if Canonical(p, a) == Canonical(p, b) {
      CanonicalBreaks(p, a);
      CanonicalBreaks(p, b);
      OneLineUnbroken(a.verb);
      OneLineUnbroken(a.path);
      OneLineUnbroken(a.nonce);
      OneLineUnbroken(b.verb);
      OneLineUnbroken(b.path);
      OneLineUnbroken(b.nonce);
      CanonicalSplits(p, a, b);
    } else {
      CanonicalOfFields(p, a, b);
    }
  }

  lemma CanonicalOfFields(p: Primitives, a: Request, b: Request)
    ensures
      && a.verb == b.verb && a.path == b.path && a.timestamp == b.timestamp && a.nonce == b.nonce
      && p.hash(a.body) == p.hash(b.body) ==>
      Canonical(p, a) == Canonical(p, b)
  {
  }

  /** One side has to be of single lines: two requests that are not can share their bytes, one holding in
      its path or its nonce what belongs in the other's timestamp line. */
  lemma LineBreaksShiftFields(p: Primitives, verb: string, path: string, t: int, u: int, nonce: string, body: seq<Byte>)
    ensures
      Canonical(p, Request(verb, path + "\n" + SignedDecimal(t), u, nonce, body))
      == Canonical(p, Request(verb, path, t, SignedDecimal(u) + "\n" + nonce, body))
  {
    hide Hex, SignedDecimal;
    var first, second, last := SignedDecimal(t), SignedDecimal(u), nonce + "\n" + Hex(p.hash(body));
    assert (path + "\n" + first) + "\n" + (second + "\n" + last)
        == path + "\n" + (first + "\n" + (second + "\n" + last));
    assert (second + "\n" + nonce) + "\n" + Hex(p.hash(body)) == second + "\n" + last;
  }

  // ---- the cache ------------------------------------------------------

  type Seen = map<string, int>

  function Kept(seen: Seen, now: int): Seen {
    map n | n in seen && now - seen[n] <= CLOCK_SKEW_SECS :: seen[n]
  }

  class NonceCache {
    var seen: Seen

    constructor ()
      ensures seen == map[]
    {
      seen := map[];
    }

    method Prune(now: int)
      modifies this
      ensures seen == Kept(old(seen), now)
    {
      seen := map n | n in seen && now - seen[n] <= CLOCK_SKEW_SECS :: seen[n];
    }

    /** Records a nonce, also when it was there already: its time is then renewed. */
    method Accept(nonce: string, now: int) returns (unused: bool)
      modifies this
      ensures unused <==> nonce !in Kept(old(seen), now)
      ensures seen == Kept(old(seen), now)[nonce := now]
    {
      Prune(now);
      unused := nonce !in seen;
      seen := seen[nonce := now];
    }
  }

  // ---- the verdict ----------------------------------------------------

  /** What is wrong with a request before its nonce is looked at. */
  function Flaw(p: Primitives, r: Request, signature: string, key: seq<Byte>, now: int): Option<Rejection> {
    if |r.nonce| < NONCE_LEN || r.verb == "" || r.path == "" || r.path[0] != '/' then Some(Rejection.Malformed)
    else if now - r.timestamp > CLOCK_SKEW_SECS || r.timestamp - now > CLOCK_SKEW_SECS then Some(StaleTimestamp)
    else
      match p.decode(signature)
      case None => Some(Rejection.Malformed)
      case Some(raw) =>
        if |raw| != 64 then Some(Rejection.Malformed)
        else if !p.genuine(key, Canonical(p, r), raw) then Some(BadSignature)
        else None
  }

  function Verdict(p: Primitives, r: Request, signature: string, key: seq<Byte>, seen: Seen, now: int)
      : Option<Rejection> {
    var flaw := Flaw(p, r, signature, key, now);
    if flaw.Some? then flaw
    else if r.nonce in Kept(seen, now) then Some(Replayed)
    else None
  }

  /** At least sixteen characters of nonce, a method, and a path from the root. */
  predicate WellFormed(r: Request) {
    |r.nonce| >= 16 && r.verb != "" && "/" <= r.path
  }

  predicate Timely(r: Request, now: int) {
    -60 <= now - r.timestamp <= 60
  }

  /** The signature is sixty-four bytes. */
  predicate Readable(p: Primitives, signature: string) {
    p.decode(signature).Some? && |p.decode(signature).value| == 64
  }

  /** And the key's holder made it over this request. */
  predicate SignedBy(p: Primitives, r: Request, signature: string, key: seq<Byte>) {
    Readable(p, signature) && p.genuine(key, Canonical(p, r), p.decode(signature).value)
  }

  /** Everything the server demands of a request but a fresh nonce. */
  predicate Sound(p: Primitives, r: Request, signature: string, key: seq<Byte>, now: int) {
    WellFormed(r) && Timely(r, now) && SignedBy(p, r, signature, key)
  }

  predicate SeenLately(seen: Seen, nonce: string, now: int) {
    nonce in seen && now - seen[nonce] <= 60
  }

  /** The cheap checks first, the signature next, the nonce last; a request refused before the nonce
      step leaves the cache alone. */
  method Verify(p: Primitives, r: Request, signature: string, key: seq<Byte>, nonces: NonceCache, now: int)
    returns (rejection: Option<Rejection>)
    modifies nonces
    ensures rejection == Verdict(p, r, signature, key, old(nonces.seen), now)
    ensures rejection == None <==> Sound(p, r, signature, key, now) && !SeenLately(old(nonces.seen), r.nonce, now)
    ensures rejection == Some(Rejection.Malformed) <==> !WellFormed(r) || (Timely(r, now) && !Readable(p, signature))
    ensures rejection == Some(StaleTimestamp) <==> WellFormed(r) && !Timely(r, now)
    ensures rejection == Some(BadSignature) <==>
              WellFormed(r) && Timely(r, now) && Readable(p, signature) && !SignedBy(p, r, signature, key)
    ensures rejection == Some(Replayed) <==>
              Sound(p, r, signature, key, now) && SeenLately(old(nonces.seen), r.nonce, now)
    ensures rejection != None && rejection != Some(Replayed) ==> nonces.seen == old(nonces.seen)
    ensures rejection == None || rejection == Some(Replayed) ==>
              nonces.seen == Kept(old(nonces.seen), now)[r.nonce := now]
  {
    if |r.nonce| < NONCE_LEN || r.verb == "" || !("/" <= r.path) {
      return Some(Rejection.Malformed);
    }
    var apart := now - r.timestamp;
    if (if apart < 0 then -apart else apart) > CLOCK_SKEW_SECS {
      return Some(StaleTimestamp);
    }
    var raw := p.decode(signature);
    if raw.None? || |raw.value| != 64 {
      return Some(Rejection.Malformed);
    }
    if !p.genuine(key, Canonical(p, r), raw.value) {
      return Some(BadSignature);
    }
    var unused := nonces.Accept(r.nonce, now);
    rejection := if unused then None else Some(Replayed);
  }

  // ---- whole runs -----------------------------------------------------

  datatype Event = Event(request: Request, signature: string, key: seq<Byte>, now: int)

  function SeenNext(p: Primitives, seen: Seen, e: Event): Seen {
    if Flaw(p, e.request, e.signature, e.key, e.now).Some? then seen
    else Kept(seen, e.now)[e.request.nonce := e.now]
  }

  function SeenAfter(p: Primitives, run: seq<Event>): Seen {
    if run == [] then map[] else SeenNext(p, SeenAfter(p, run[..|run| - 1]), run[|run| - 1])
  }

  predicate AcceptedAt(p: Primitives, run: seq<Event>, i: nat)
    requires i < |run|
  {
    var e := run[i];
    Verdict(p, e.request, e.signature, e.key, SeenAfter(p, run[..i]), e.now) == None
  }

  predicate Clocked(run: seq<Event>) {
    forall i, j :: 0 <= i <= j < |run| ==> run[i].now <= run[j].now
  }

  /** An event whose request was sound when it came. */
  predicate SoundAt(p: Primitives, run: seq<Event>, i: nat)
    requires i < |run|
  {
    Sound(p, run[i].request, run[i].signature, run[i].key, run[i].now)
  }

  lemma FlawExactly(p: Primitives, e: Event)
    ensures Flaw(p, e.request, e.signature, e.key, e.now) == None
            <==> Sound(p, e.request, e.signature, e.key, e.now)
  {
    hide Canonical;
  }

  /** Sound use of this nonce within the last sixty seconds before `now`. */
  ghost predicate UsedLately(p: Primitives, run: seq<Event>, nonce: string, now: int) {
    exists j :: 0 <= j < |run| && SoundAt(p, run, j) && run[j].request.nonce == nonce && now - run[j].now <= 60
  }

  lemma UsedOneMore(p: Primitives, run: seq<Event>, nonce: string, now: int)
    requires run != []
    ensures var before, last := run[..|run| - 1], run[|run| - 1];
            UsedLately(p, run, nonce, now)
            <==> || UsedLately(p, before, nonce, now)
                 || (Sound(p, last.request, last.signature, last.key, last.now)
                     && last.request.nonce == nonce && now - last.now <= 60)
  {
    hide Sound;
    var before, last := run[..|run| - 1], run[|run| - 1];
    assert forall j :: 0 <= j < |before| ==> run[j] == before[j] && (SoundAt(p, run, j) <==> SoundAt(p, before, j));
    assert SoundAt(p, run, |run| - 1) <==> Sound(p, last.request, last.signature, last.key, last.now);
    if UsedLately(p, before, nonce, now) {
      var j :| 0 <= j < |before| && SoundAt(p, before, j) && before[j].request.nonce == nonce
        && now - before[j].now <= 60;
      assert SoundAt(p, run, j) && run[j].request.nonce == nonce;
    }
  }

  /** The cache answers exactly that. */
  lemma {:induction false} CacheExactly(p: Primitives, run: seq<Event>, nonce: string, now: int)
    requires Clocked(run) && forall i :: 0 <= i < |run| ==> run[i].now <= now
    ensures SeenLately(SeenAfter(p, run), nonce, now) <==> UsedLately(p, run, nonce, now)
    ensures nonce in SeenAfter(p, run) ==> SeenAfter(p, run)[nonce] <= now
  {
    if run != [] {
      hide Sound, Flaw, UsedLately;
      var before, last := run[..|run| - 1], run[|run| - 1];
      CacheExactly(p, before, nonce, now);
      FlawExactly(p, last);
      UsedOneMore(p, run, nonce, now);
    } else {
      assert !UsedLately(p, run, nonce, now);
    }
  }

  /** What is accepted.  Over every run whose clock does not go back, a request is accepted exactly when it
      is well formed, timely and signed by the key's holder, and no such request used its nonce in the
      sixty seconds before. */
  lemma AcceptedExactly(p: Primitives, run: seq<Event>, i: nat)
    requires i < |run| && Clocked(run)
    ensures AcceptedAt(p, run, i)
            <==> SoundAt(p, run, i) && !UsedLately(p, run[..i], run[i].request.nonce, run[i].now)
  {
    hide Sound, Flaw, Canonical;
    FlawExactly(p, run[i]);
    assert forall j :: 0 <= j < i ==> run[..i][j] == run[j];
    CacheExactly(p, run[..i], run[i].request.nonce, run[i].now);
  }

  /** An accepted nonce stays remembered until the skew has passed since its acceptance. */
  lemma {:induction false} Remembered(p: Primitives, run: seq<Event>, i: nat)
    requires i < |run| && Clocked(run) && AcceptedAt(p, run, i)
    ensures var nonce, seen := run[i].request.nonce, SeenAfter(p, run);
      || (nonce in seen && run[i].now <= seen[nonce])
      || run[|run| - 1].now > run[i].now + CLOCK_SKEW_SECS
  {
    var before, last := run[..|run| - 1], run[|run| - 1];
    if i < |before| {
      assert before[..i] == run[..i];
      Remembered(p, before, i);
      assert before[|before| - 1].now <= last.now;
    }
  }

  /** Over every run whose clock does not go back, a nonce is accepted a second time only under a
      timestamp later than the clock at its first acceptance.  So a request stamped no later than that
      is never accepted again. */
  lemma AcceptedOnce(p: Primitives, run: seq<Event>, i: nat, j: nat)
    requires i < j < |run| && Clocked(run)
    requires AcceptedAt(p, run, i) && AcceptedAt(p, run, j)
    requires run[i].request.nonce == run[j].request.nonce
    ensures run[j].request.timestamp > run[i].now
    ensures run[i].request.timestamp <= run[i].now ==> run[j].request != run[i].request
  {
    hide Canonical;
    var before := run[..j];
    assert before[..i] == run[..i];
    Remembered(p, before, i);
    assert run[j - 1].now <= run[j].now;
  }

  /** The condition is exact: an accepted request can be accepted again by and by, nothing else
      arriving in between, if and only if it was stamped after the clock that accepted it. */
  lemma ReplayableExactly(p: Primitives, seen: Seen, e: Event)
    requires Verdict(p, e.request, e.signature, e.key, seen, e.now) == None
    ensures
      (exists later :: e.now <= later && Verdict(p, e.request, e.signature, e.key, SeenNext(p, seen, e), later) == None)
      <==> e.request.timestamp > e.now
  {
    hide Canonical;
    if e.request.timestamp > e.now {
      var later := e.request.timestamp + CLOCK_SKEW_SECS;
      assert Flaw(p, e.request, e.signature, e.key, later) == None;
      assert e.request.nonce !in Kept(SeenNext(p, seen, e), later);
      assert Verdict(p, e.request, e.signature, e.key, SeenNext(p, seen, e), later) == None;
    }
  }

  /** A run that does it: a correctly signed request stamped one second ahead of the server is accepted,
      and accepted again sixty-one seconds later. */
  lemma FutureStampReplays(p: Primitives, signature: string, key: seq<Byte>, body: seq<Byte>)
    requires var r := Request("GET", "/", 101, "0123456789abcdef", body);
      && p.decode(signature).Some? && |p.decode(signature).value| == 64
      && p.genuine(key, Canonical(p, r), p.decode(signature).value)
    ensures var r := Request("GET", "/", 101, "0123456789abcdef", body);
      var run := [Event(r, signature, key, 100), Event(r, signature, key, 161)];
      Clocked(run) && AcceptedAt(p, run, 0) && AcceptedAt(p, run, 1)
  {
    hide Canonical;
    var r := Request("GET", "/", 101, "0123456789abcdef", body);
    var run := [Event(r, signature, key, 100), Event(r, signature, key, 161)];
    assert run[..0] == [] && run[..1] == [run[0]] && [run[0]][..0] == [];
    assert SeenAfter(p, run[..1]) == SeenNext(p, map[], run[0]);
  }

  /** Nothing older than the skew is remembered. */
  lemma RemembersOnlyTheWindow(p: Primitives, seen: Seen, e: Event, nonce: string)
    requires Flaw(p, e.request, e.signature, e.key, e.now) == None && nonce in SeenNext(p, seen, e)
    ensures e.now - SeenNext(p, seen, e)[nonce] <= CLOCK_SKEW_SECS
  {
  }
}
