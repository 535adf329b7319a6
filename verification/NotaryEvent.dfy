// server/internal/event/prepare.go: normalising and checking a request, and
// turning it into the event that is appended to the log.
module NotaryEvent {
  import opened Wrappers
  import opened HashTrees
  import opened Text
  import opened ClientCrypto
  import P = PayloadHash

  datatype PayloadHash = PayloadHash(alg: string, value: string)

  // issuedAt is the instant that the issued_at text stands for, in nanoseconds,
  // or None when the text is not an RFC 3339 time.
  datatype Request = Request(
    schema: string, eventType: string, docId: string, prevEventId: Option<string>, prevEventLeaf: Option<int>,
    payloadHash: Option<PayloadHash>, issuerEntityId: string, issuerName: string, issuedAt: Option<int>,
    title: string, description: string, notes: string)

  datatype Event = Event(req: Request, eventId: string, docVersion: int, recordedAt: int)

  // What the code takes from its libraries: the UUIDv4 parser, SHA-256, the
  // canonical JSON encoding; and its one switch.
  datatype Config = Config(isUuid4: string -> bool, sha256: HashFn, encode: Event -> Bytes, issuedAtAsRecordedAt: bool)

  function LeafHash(cfg: Config, e: Event): (h: string)
    ensures |h| == 64 && AllLowerHex(h)
  {
    BytesToHex(cfg.sha256(cfg.encode(e)))
  }

  // ----- decoding -----

  function TrimOption(s: Option<string>): Option<string> {
    if s.None? then None else Some(Trim(GoSpace, s.value))
  }

  predicate HasNoLower(s: string) {
    forall i | 0 <= i < |s| :: !('a' <= s[i] <= 'z')
  }

  // No white space around the texts that are trimmed, and the event type in upper
  // case.
  predicate InNormalForm(req: Request) {
    && IsTrimmed(GoSpace, req.eventType) && HasNoLower(req.eventType)
    && IsTrimmed(GoSpace, req.docId) && (req.prevEventId.Some? ==> IsTrimmed(GoSpace, req.prevEventId.value))
    && IsTrimmed(GoSpace, req.issuerEntityId) && IsTrimmed(GoSpace, req.issuerName)
    && IsTrimmed(GoSpace, req.title) && IsTrimmed(GoSpace, req.description) && IsTrimmed(GoSpace, req.notes)
  }

  // The field by field normalisation of DecodeAddEventRequest: it brings a request
  // to normal form, changes none that is in it already, and never touches schema,
  // payload hash, time of issue and predecessor leaf.
  method NormalizeRequest(raw: Request) returns (req: Request)
    ensures req == Normalized(raw)
    ensures InNormalForm(req) && (InNormalForm(raw) ==> req == raw)
    ensures Trims(raw, req)
    ensures req.schema == raw.schema && req.payloadHash == raw.payloadHash && req.issuedAt == raw.issuedAt
    ensures req.prevEventLeaf == raw.prevEventLeaf && (req.prevEventId.None? <==> raw.prevEventId.None?)
  {
    req := raw;
    req := req.(eventType := Upper(Trim(GoSpace, req.eventType)));
    req := req.(docId := Trim(GoSpace, req.docId));
    req := req.(prevEventId := TrimOption(req.prevEventId));
    req := req.(issuerEntityId := Trim(GoSpace, req.issuerEntityId));
    req := req.(issuerName := Trim(GoSpace, req.issuerName));
    req := req.(title := Trim(GoSpace, req.title));
    req := req.(description := Trim(GoSpace, req.description));
    req := req.(notes := Trim(GoSpace, req.notes));
    NormalizedIsNormal(raw);
    NormalizedTrims(raw);
    if InNormalForm(raw) {
      NormalIsFixed(raw);
    }
  }

  // s, without white space around it and in upper case, is name.
  ghost predicate IsNamed(s: string, name: string) {
    exists t | IsTrimOf(GoSpace, s, t) :: IsUpperOf(t, name)
  }

  // req is raw with the white space around its texts taken away, and nothing else,
  // and its event type in upper case.
  ghost predicate Trims(raw: Request, req: Request) {
    && IsNamed(raw.eventType, req.eventType) && IsTrimOf(GoSpace, raw.docId, req.docId)
    && (raw.prevEventId.Some? <==> req.prevEventId.Some?)
    && (raw.prevEventId.Some? ==> IsTrimOf(GoSpace, raw.prevEventId.value, req.prevEventId.value))
    && IsTrimOf(GoSpace, raw.issuerEntityId, req.issuerEntityId) && IsTrimOf(GoSpace, raw.issuerName, req.issuerName)
    && IsTrimOf(GoSpace, raw.title, req.title) && IsTrimOf(GoSpace, raw.description, req.description)
    && IsTrimOf(GoSpace, raw.notes, req.notes)
    && req.schema == raw.schema && req.prevEventLeaf == raw.prevEventLeaf
    && req.payloadHash == raw.payloadHash && req.issuedAt == raw.issuedAt
  }

  lemma {:induction false} NamedExactly(s: string, name: string)
    ensures Upper(Trim(GoSpace, s)) == name <==> IsNamed(s, name)
  {
    hide Trim, IsTrimOf, IsUpperOf, Upper;
    var t := Trim(GoSpace, s);
    TrimIsExact(GoSpace, s, t);
    UpperIsExact(t, name);
    forall u | IsTrimOf(GoSpace, s, u) ensures u == t {
      TrimIsExact(GoSpace, s, u);
    }
  }

  lemma {:induction false} NormalizedTrims(raw: Request)
    ensures Trims(raw, Normalized(raw))
  {
    hide Trim, IsTrimOf, IsUpperOf, Upper, IsNamed;
    var req := Normalized(raw);
    NamedExactly(raw.eventType, req.eventType);
    TrimIsExact(GoSpace, raw.docId, req.docId);
    if raw.prevEventId.Some? {
      TrimIsExact(GoSpace, raw.prevEventId.value, req.prevEventId.value);
    }
    TrimIsExact(GoSpace, raw.issuerEntityId, req.issuerEntityId);
    TrimIsExact(GoSpace, raw.issuerName, req.issuerName);
    TrimIsExact(GoSpace, raw.title, req.title);
    TrimIsExact(GoSpace, raw.description, req.description);
    TrimIsExact(GoSpace, raw.notes, req.notes);
  }

  function Normalized(raw: Request): Request {
    raw.(eventType := Upper(Trim(GoSpace, raw.eventType)),
         docId := Trim(GoSpace, raw.docId),
         prevEventId := TrimOption(raw.prevEventId),
         issuerEntityId := Trim(GoSpace, raw.issuerEntityId),
         issuerName := Trim(GoSpace, raw.issuerName),
         title := Trim(GoSpace, raw.title),
         description := Trim(GoSpace, raw.description),
         notes := Trim(GoSpace, raw.notes))
  }

  lemma {:induction false} UpperKeepsTrimmed(s: string)
    requires IsTrimmed(GoSpace, s)
    ensures IsTrimmed(GoSpace, Upper(s)) && HasNoLower(Upper(s))
  {
    assert forall c: char :: GoSpace(UpperChar(c)) <==> GoSpace(c);
  }

  lemma {:induction false} NormalizedIsNormal(raw: Request)
    ensures InNormalForm(Normalized(raw))
  {
    TrimFixes(GoSpace, raw.eventType);
    UpperKeepsTrimmed(Trim(GoSpace, raw.eventType));
    TrimFixes(GoSpace, raw.docId);
    if raw.prevEventId.Some? {
      TrimFixes(GoSpace, raw.prevEventId.value);
    }
    TrimFixes(GoSpace, raw.issuerEntityId);
    TrimFixes(GoSpace, raw.issuerName);
    TrimFixes(GoSpace, raw.title);
    TrimFixes(GoSpace, raw.description);
    TrimFixes(GoSpace, raw.notes);
  }

  lemma {:induction false} NormalIsFixed(req: Request)
    requires InNormalForm(req)
    ensures Normalized(req) == req
  {
    TrimFixes(GoSpace, req.eventType);
    assert Upper(req.eventType) == req.eventType;
    TrimFixes(GoSpace, req.docId);
    if req.prevEventId.Some? {
      TrimFixes(GoSpace, req.prevEventId.value);
    }
    TrimFixes(GoSpace, req.issuerEntityId);
    TrimFixes(GoSpace, req.issuerName);
    TrimFixes(GoSpace, req.title);
    TrimFixes(GoSpace, req.description);
    TrimFixes(GoSpace, req.notes);
  }

  // ----- checking -----

  const EVENT_SCHEMA := "pa-notary-event@1"

  predicate IsCreate(eventType: string) { eventType == "CREATE" }

  predicate IsFollowUp(eventType: string) { eventType == "UPDATE" || eventType == "REVOKE" || eventType == "EXPIRE" }

  predicate GoodPayload(ph: PayloadHash) {
    Trim(GoSpace, ph.alg) == "sha-256" && P.ParsePayloadHashValue(ph.value).Ok?
  }

  // validateAddEventRequest: the digest of the document, "" when there is none,
  // and the time of issue.
  function Validate(cfg: Config, req: Request): Result<(string, int)> {
    if req.schema != EVENT_SCHEMA || req.docId == "" || req.issuerEntityId == "" || req.title == ""
       || (req.prevEventLeaf.Some? && req.prevEventLeaf.value < 0) || req.issuedAt.None? then Err
    else if IsCreate(req.eventType) then
      if IsAbsent(req.prevEventId) && req.payloadHash.Some? && GoodPayload(req.payloadHash.value) then
        Ok((P.ParsePayloadHashValue(req.payloadHash.value.value).value, req.issuedAt.value))
      else Err
    else if IsFollowUp(req.eventType) then
      if req.prevEventId.None? || Trim(GoSpace, req.prevEventId.value) == ""
         || !cfg.isUuid4(Trim(GoSpace, req.prevEventId.value)) then Err
      else if req.payloadHash.Some? then
        if GoodPayload(req.payloadHash.value) then
          Ok((P.ParsePayloadHashValue(req.payloadHash.value.value).value, req.issuedAt.value))
        else Err
      else if req.eventType == "UPDATE" then Err
      else Ok(("", req.issuedAt.value))
    else Err
  }

  function ComputeRecordedAt(now: int, issuedAt: int, issuedAtAsRecordedAt: bool): Result<int> {
    if issuedAtAsRecordedAt then Ok(issuedAt)
    else if now < issuedAt then Err
    else Ok(now)
  }

  // PrepareDecodedAddEventForNotarizationWithMode; eventId is the fresh UUID.
  function Prepare(cfg: Config, req: Request, now: int, docVersion: int, eventId: string): Result<Event> {
    if docVersion < 1 then Err
    else
      var valid := Validate(cfg, req);
      if valid.Err? then Err
      else
        var (docHash, issuedAt) := valid.value;
        var recordedAt := ComputeRecordedAt(now, issuedAt, cfg.issuedAtAsRecordedAt);
        if recordedAt.Err? then Err
        else
          var payload := if req.payloadHash.None? then None else Some(PayloadHash("sha-256", P.Stored(docHash)));
          Ok(Event(req.(payloadHash := payload), eventId, docVersion, recordedAt.value))
  }

  // PreparedEvent.DocHash: "" when the event carries no payload hash.
  function DocHash(e: Event): Result<string> {
    if e.req.payloadHash.None? then Ok("") else P.ParsePayloadHashValue(e.req.payloadHash.value.value)
  }

  // Everything the rest of the system relies on in an event in the log.
  predicate WellFormed(e: Event) {
    && e.req.docId != "" && IsTrimmed(GoSpace, e.req.docId) && IsTrimmed(GoSpace, e.req.issuerEntityId)
    && e.eventId != "" && IsTrimmed(GoSpace, e.eventId)
    && DocHash(e).Ok? && AllLowerHex(DocHash(e).value) && (|DocHash(e).value| == 0 || |DocHash(e).value| == 64)
    && (e.req.payloadHash.Some? ==> e.req.payloadHash.value == PayloadHash("sha-256", P.Stored(DocHash(e).value)))
    && e.docVersion >= 1
    && (IsCreate(e.req.eventType) ==> IsAbsent(e.req.prevEventId) && e.req.payloadHash.Some?)
    && (!IsCreate(e.req.eventType) ==> IsFollowUp(e.req.eventType) && e.req.prevEventId.Some?)
  }

  // ----- which requests are accepted -----

  ghost predicate CarriesDigest(ph: PayloadHash) {
    IsTrimOf(GoSpace, ph.alg, "sha-256") && exists digest :: P.IsValueOf(ph.value, digest)
  }

  ghost predicate HasDigest(raw: Request) {
    raw.payloadHash.Some? && CarriesDigest(raw.payloadHash.value)
  }

  ghost predicate NamesUuid(cfg: Config, raw: Request) {
    raw.prevEventId.Some? && exists id | IsTrimOf(GoSpace, raw.prevEventId.value, id) :: id != "" && cfg.isUuid4(id)
  }

  // What every request needs.
  predicate IsFilledIn(raw: Request) {
    && raw.schema == "pa-notary-event@1"
    && !AllSpace(GoSpace, raw.docId) && !AllSpace(GoSpace, raw.issuerEntityId) && !AllSpace(GoSpace, raw.title)
    && (raw.prevEventLeaf.Some? ==> raw.prevEventLeaf.value >= 0)
  }

  // What its type needs.
  ghost predicate SuitsItsType(cfg: Config, raw: Request) {
    || (IsNamed(raw.eventType, "CREATE") && HasDigest(raw)
        && (raw.prevEventId.Some? ==> AllSpace(GoSpace, raw.prevEventId.value)))
    || (IsNamed(raw.eventType, "UPDATE") && HasDigest(raw) && NamesUuid(cfg, raw))
    || ((IsNamed(raw.eventType, "REVOKE") || IsNamed(raw.eventType, "EXPIRE")) && NamesUuid(cfg, raw)
        && (raw.payloadHash.Some? ==> HasDigest(raw)))
  }

  // Unless the time of issue is taken as that of recording, it must not be in the
  // future.
  predicate IsIssuedInTime(cfg: Config, raw: Request, now: int) {
    raw.issuedAt.Some? && (cfg.issuedAtAsRecordedAt || raw.issuedAt.value <= now)
  }

  ghost predicate IsAcceptable(cfg: Config, raw: Request, now: int) {
    IsFilledIn(raw) && SuitsItsType(cfg, raw) && IsIssuedInTime(cfg, raw, now)
  }

  lemma {:induction false} DigestExactly(ph: PayloadHash)
    ensures GoodPayload(ph) <==> CarriesDigest(ph)
  {
    hide Trim, IsTrimOf, P.ParsePayloadHashValue, P.IsValueOf;
    TrimIsExact(GoSpace, ph.alg, "sha-256");
    forall digest ensures P.ParsePayloadHashValue(ph.value) == Ok(digest) <==> P.IsValueOf(ph.value, digest) {
      P.ParsesExactly(ph.value, digest);
    }
    if P.ParsePayloadHashValue(ph.value).Ok? {
      assert P.IsValueOf(ph.value, P.ParsePayloadHashValue(ph.value).value);
    }
  }

  lemma {:induction false} UuidExactly(cfg: Config, raw: Request)
    ensures var prev := Normalized(raw).prevEventId;
      prev.Some? && Trim(GoSpace, prev.value) != "" && cfg.isUuid4(Trim(GoSpace, prev.value)) <==> NamesUuid(cfg, raw)
  {
    hide Trim, IsTrimOf;
    if raw.prevEventId.Some? {
      var s := raw.prevEventId.value;
      var t := Trim(GoSpace, s);
      TrimFixes(GoSpace, s);
      TrimFixes(GoSpace, t);
      TrimIsExact(GoSpace, s, t);
      forall u | IsTrimOf(GoSpace, s, u) ensures u == t {
        TrimIsExact(GoSpace, s, u);
      }
    }
  }

  // Nothing is missing from the request, as the checks see it.
  predicate HasFields(req: Request) {
    && req.schema == EVENT_SCHEMA && req.docId != "" && req.issuerEntityId != "" && req.title != ""
    && (req.prevEventLeaf.Some? ==> req.prevEventLeaf.value >= 0)
  }

  lemma {:induction false} FieldsExactly(raw: Request)
    ensures HasFields(Normalized(raw)) <==> IsFilledIn(raw)
    ensures IsAbsent(Normalized(raw).prevEventId) <==>
      (raw.prevEventId.Some? ==> AllSpace(GoSpace, raw.prevEventId.value))
  {
    hide Trim, AllSpace;
    BlankIsAllSpace(GoSpace, raw.docId);
    BlankIsAllSpace(GoSpace, raw.issuerEntityId);
    BlankIsAllSpace(GoSpace, raw.title);
    if raw.prevEventId.Some? {
      BlankIsAllSpace(GoSpace, raw.prevEventId.value);
    }
  }

  lemma {:induction false} TypeExactly(raw: Request)
    ensures var eventType := Normalized(raw).eventType;
      && (eventType == "CREATE" <==> IsNamed(raw.eventType, "CREATE"))
      && (eventType == "UPDATE" <==> IsNamed(raw.eventType, "UPDATE"))
      && (eventType == "REVOKE" <==> IsNamed(raw.eventType, "REVOKE"))
      && (eventType == "EXPIRE" <==> IsNamed(raw.eventType, "EXPIRE"))
  {
    hide Trim, Upper, IsNamed;
    NamedExactly(raw.eventType, "CREATE");
    NamedExactly(raw.eventType, "UPDATE");
    NamedExactly(raw.eventType, "REVOKE");
    NamedExactly(raw.eventType, "EXPIRE");
  }

  lemma {:induction false} ValidatesExactly(cfg: Config, raw: Request)
    ensures Validate(cfg, Normalized(raw)).Ok? <==>
      IsFilledIn(raw) && SuitsItsType(cfg, raw) && raw.issuedAt.Some?
    ensures Validate(cfg, Normalized(raw)).Ok? ==> Some(Validate(cfg, Normalized(raw)).value.1) == raw.issuedAt
  {
    hide Trim, Upper, IsNamed, IsFilledIn, CarriesDigest, NamesUuid, GoodPayload, P.ParsePayloadHashValue;
    FieldsExactly(raw);
    TypeExactly(raw);
    UuidExactly(cfg, raw);
    if raw.payloadHash.Some? {
      DigestExactly(raw.payloadHash.value);
    }
  }

  // A request is accepted exactly when it has what every request needs and what its
  // type needs, and is issued in time.
  lemma {:induction false} AcceptsExactly(cfg: Config, raw: Request, now: int, docVersion: int, eventId: string)
    ensures Prepare(cfg, Normalized(raw), now, docVersion, eventId).Ok? <==>
      docVersion >= 1 && IsAcceptable(cfg, raw, now)
  {
    hide Validate, IsFilledIn, SuitsItsType, Normalized;
    ValidatesExactly(cfg, raw);
  }

  // The leaf hash is the digest of the encoded event.
  lemma {:induction false} LeafHashIsDigest(cfg: Config, e: Event)
    ensures ParseHex(LeafHash(cfg, e)) == Ok(cfg.sha256(cfg.encode(e)))
  {
    HexRoundTrip(cfg.sha256(cfg.encode(e)));
  }

  // A prepared event is well formed, in particular its digest can always be read
  // back, so the server's internal-error branch after preparing is never taken.
  lemma {:induction false} PrepareIsWellFormed(cfg: Config, raw: Request, now: int, docVersion: int, eventId: string)
    requires eventId != "" && IsTrimmed(GoSpace, eventId)
    ensures var req := Normalized(raw);
      var r := Prepare(cfg, req, now, docVersion, eventId);
      r.Ok? ==>
        && WellFormed(r.value) && r.value.eventId == eventId && r.value.docVersion == docVersion
        && r.value.req.docId == req.docId && r.value.req.prevEventId == req.prevEventId
        && r.value.req.eventType == req.eventType
  {
    var req := Normalized(raw);
    TrimFixes(GoSpace, raw.docId);
    TrimFixes(GoSpace, raw.issuerEntityId);
    if Prepare(cfg, req, now, docVersion, eventId).Ok? && req.payloadHash.Some? {
      P.StoredParses(P.ParsePayloadHashValue(req.payloadHash.value.value).value);
    }
  }

  // It carries the request unchanged but for the payload hash, which it keeps as
  // a digest, and was not recorded before it was issued.
  lemma {:induction false} PrepareKeepsRequest(cfg: Config, req: Request, now: int, docVersion: int, eventId: string)
    ensures var r := Prepare(cfg, req, now, docVersion, eventId);
      r.Ok? ==>
        && r.value.req == req.(payloadHash := r.value.req.payloadHash)
        && (r.value.req.payloadHash.None? <==> req.payloadHash.None?)
        && DocHash(r.value) ==
          (if req.payloadHash.None? then Ok("") else P.ParsePayloadHashValue(req.payloadHash.value.value))
        && req.issuedAt.Some? && req.issuedAt.value <= r.value.recordedAt
        && r.value.recordedAt == if cfg.issuedAtAsRecordedAt then req.issuedAt.value else now
  {
    if Prepare(cfg, req, now, docVersion, eventId).Ok? && req.payloadHash.Some? {
      P.StoredParses(P.ParsePayloadHashValue(req.payloadHash.value.value).value);
    }
  }

  lemma {:induction false} StoredIsGood(digest: string)
    requires |digest| == 64 && AllLowerHex(digest)
    ensures GoodPayload(PayloadHash("sha-256", P.Stored(digest)))
    ensures P.ParsePayloadHashValue(P.Stored(digest)) == Ok(digest)
  {
    P.StoredParses(digest);
    TrimFixes(GoSpace, "sha-256");
  }

  lemma {:induction false} ValidAgain(cfg: Config, req: Request, again: Request)
    requires Validate(cfg, req).Ok?
    requires again == req.(payloadHash := again.payloadHash)
    requires again.payloadHash ==
      if req.payloadHash.None? then None else Some(PayloadHash("sha-256", P.Stored(Validate(cfg, req).value.0)))
    ensures Validate(cfg, again) == Validate(cfg, req)
  {
    if req.payloadHash.Some? {
      StoredIsGood(Validate(cfg, req).value.0);
    }
  }

  // The request inside a notarized event is in normal form: sent again it passes
  // the same checks and gives the same event.
  lemma {:induction false} PreparedIsFixed(cfg: Config, raw: Request, now: int, docVersion: int, eventId: string)
    ensures var r := Prepare(cfg, Normalized(raw), now, docVersion, eventId);
      r.Ok? ==> Normalized(r.value.req) == r.value.req && Prepare(cfg, r.value.req, now, docVersion, eventId) == r
  {
    var req := Normalized(raw);
    var r := Prepare(cfg, req, now, docVersion, eventId);
    if r.Ok? {
      NormalizedIsNormal(raw);
      NormalIsFixed(r.value.req);
      ValidAgain(cfg, req, r.value.req);
    }
  }
}
