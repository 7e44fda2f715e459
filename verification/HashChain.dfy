/**
 The audit hash chain: canonical JSON of an event, the bytes that are hashed, and the replay of a
 log. SHA-256 is any function from bytes to bytes; nothing is assumed of it. Where its collision
 resistance matters, the theorems end in "or here are two of these logs' own preimages with one
 digest".
 */
module HashChains {
  import opened Wrappers
  import opened JsText

  datatype CanonicalAuditEvent = CanonicalAuditEvent(
    id: Text,
    tenantId: Text,
    actor: Text,
    action: Text,
    decision: Text,
    resourceKind: Text,
    resourceId: Text,
    reason: Option<Text>,
    policy: Option<Text>,
    decisionId: Option<Text>,
    traceId: Option<Text>,
    occurredAt: Text)

  // ----- JSON.stringify of an object of strings and nulls ---------------------------------------

  type Member = (Text, Option<Text>)

  const COLON: Unit := 58
  const COMMA: Unit := 44
  const OPEN: Unit := 123
  const CLOSE: Unit := 125

  function PrintValue(v: Option<Text>): Text {
    if v.None? then [110, 117, 108, 108] else Quote(v.value)
  }

  function PrintMember(m: Member): Text {
    Quote(m.0) + ([COLON] + PrintValue(m.1))
  }

  /** The members from the first on, up to and with the closing brace. */
  function PrintMembers(ms: seq<Member>): Text {
    if ms == [] then [CLOSE]
    else if |ms| == 1 then PrintMember(ms[0]) + [CLOSE]
    else PrintMember(ms[0]) + ([COMMA] + PrintMembers(ms[1..]))
  }

  function PrintObject(ms: seq<Member>): Text {
    [OPEN] + PrintMembers(ms)
  }

  // ----- Reading such an object back (section 2 of RFC 8259, without optional space) -------------

  function ReadString(t: Text): (r: Option<(Text, Text)>)
    ensures r.Some? ==> |r.value.1| < |t|
  {
    if t != [] && t[0] == QUOTE then ParseBody(t[1..]) else None
  }

  function ReadValue(t: Text): (r: Option<(Option<Text>, Text)>)
    ensures r.Some? ==> |r.value.1| < |t|
  {
    if [110, 117, 108, 108] <= t then Some((None, t[4..]))
    else
      var string_ := ReadString(t);
      if string_.None? then None else Some((Some(string_.value.0), string_.value.1))
  }

  function ReadMember(t: Text): (r: Option<(Member, Text)>)
    ensures r.Some? ==> |r.value.1| < |t|
  {
    var key := ReadString(t);
    if key.None? || key.value.1 == [] || key.value.1[0] != COLON then None
    else
      var v := ReadValue(key.value.1[1..]);
      if v.None? then None else Some(((key.value.0, v.value.0), v.value.1))
  }

  /** At least one member, up to and with the closing brace, and what follows. */
  function ReadMembers(t: Text): Option<(seq<Member>, Text)>
    decreases |t|
  {
    var first := ReadMember(t);
    if first.None? || first.value.1 == [] then None
    else
      var m, next := first.value.0, first.value.1;
      if next[0] == CLOSE then Some(([m], next[1..]))
      else if next[0] != COMMA then None
      else
        var rest := ReadMembers(next[1..]);
        if rest.None? then None else Some(([m] + rest.value.0, rest.value.1))
  }

  function ReadObject(t: Text): Option<seq<Member>> {
    if t == [] || t[0] != OPEN then None
    else if t[1..] == [CLOSE] then Some([])
    else
      var r := ReadMembers(t[1..]);
      if r.Some? && r.value.1 == [] then Some(r.value.0) else None
  }

  lemma StringReadsBack(s: Text, r: Text)
    ensures ReadString(Quote(s) + r) == Some((s, r))
  {
    assert (Quote(s) + r)[1..] == Escape(s) + ([QUOTE] + r);
    ParseUndoesEscape(s, r);
  }

  lemma MemberReadsBack(m: Member, r: Text)
    ensures ReadMember(PrintMember(m) + r) == Some((m, r))
  {
    var v := PrintValue(m.1);
    assert PrintMember(m) + r == Quote(m.0) + ([COLON] + (v + r));
    StringReadsBack(m.0, [COLON] + (v + r));
    assert ([COLON] + (v + r))[1..] == v + r;
    if m.1.Some? {
      assert (v + r)[0] == QUOTE;
      StringReadsBack(m.1.value, r);
    } else {
      assert (v + r)[4..] == r;
    }
  }

  lemma {:induction false} MembersReadBack(ms: seq<Member>)
    requires ms != []
    ensures ReadMembers(PrintMembers(ms)) == Some((ms, []))
  {
    if |ms| == 1 {
      MemberReadsBack(ms[0], [CLOSE]);
      var next: Text := [CLOSE];
      assert next[1..] == [] && ms == [ms[0]];
    } else {
      var more := PrintMembers(ms[1..]);
      MemberReadsBack(ms[0], [COMMA] + more);
      MembersReadBack(ms[1..]);
      assert ([COMMA] + more)[1..] == more;
      assert ms == [ms[0]] + ms[1..];
    }
  }

  /** The keys in their fixed order. */
  function Members(e: CanonicalAuditEvent): seq<Member> {
    [ (Ascii("id"), Some(e.id)),
      (Ascii("tenantId"), Some(e.tenantId)),
      (Ascii("actor"), Some(e.actor)),
      (Ascii("action"), Some(e.action)),
      (Ascii("decision"), Some(e.decision)),
      (Ascii("resourceKind"), Some(e.resourceKind)),
      (Ascii("resourceId"), Some(e.resourceId)),
      (Ascii("reason"), e.reason),
      (Ascii("policy"), e.policy),
      (Ascii("decisionId"), e.decisionId),
      (Ascii("traceId"), e.traceId),
      (Ascii("occurredAt"), Some(e.occurredAt)) ]
  }

  function CanonicalizeEvent(e: CanonicalAuditEvent): Text {
    PrintObject(Members(e))
  }

  /** A JSON reader finds the twelve fields under their names, in this order. */
  lemma CanonicalReadsBack(e: CanonicalAuditEvent)
    ensures ReadObject(CanonicalizeEvent(e)) == Some(
              [(Ascii("id"), Some(e.id)), (Ascii("tenantId"), Some(e.tenantId)), (Ascii("actor"), Some(e.actor)),
               (Ascii("action"), Some(e.action)), (Ascii("decision"), Some(e.decision)),
               (Ascii("resourceKind"), Some(e.resourceKind)), (Ascii("resourceId"), Some(e.resourceId)),
               (Ascii("reason"), e.reason), (Ascii("policy"), e.policy), (Ascii("decisionId"), e.decisionId),
               (Ascii("traceId"), e.traceId), (Ascii("occurredAt"), Some(e.occurredAt))])
  {
    MembersReadBack(Members(e));
    assert CanonicalizeEvent(e)[1..] == PrintMembers(Members(e));
    PrintedNotClosed(Members(e));
  }

  lemma PrintedNotClosed(ms: seq<Member>)
    requires ms != []
    ensures PrintMembers(ms)[0] == QUOTE
  {
  }

  /** The canonical form determines the event. */
  lemma CanonicalInjective(a: CanonicalAuditEvent, b: CanonicalAuditEvent)
    requires CanonicalizeEvent(a) == CanonicalizeEvent(b)
    ensures a == b
  {
    CanonicalReadsBack(a);
    CanonicalReadsBack(b);
    var m, n := Members(a), Members(b);
    assert m == n;
    assert m[0] == n[0] && m[1] == n[1] && m[2] == n[2] && m[3] == n[3] && m[4] == n[4] && m[5] == n[5];
    assert m[6] == n[6] && m[7] == n[7] && m[8] == n[8] && m[9] == n[9] && m[10] == n[10] && m[11] == n[11];
  }

  predicate Printable(t: Text) {
    WellFormed(t) && NoControls(t)
  }

  lemma PrintableConcat(a: Text, b: Text)
    requires Printable(a) && Printable(b)
    ensures Printable(a + b)
  {
    WellFormedConcat(a, b);
  }

  lemma SmallPrintable(t: Text)
    requires forall i :: 0 <= i < |t| ==> 0x20 <= t[i] < 0x80
    ensures Printable(t)
  {
    AsciiWellFormed(t);
  }

  lemma QuotePrintable(s: Text)
    ensures Printable(Quote(s))
  {
    EscapeWellFormed(s);
    EscapeHasNoControls(s);
    SmallPrintable([QUOTE]);
    PrintableConcat([QUOTE], Escape(s));
    PrintableConcat([QUOTE] + Escape(s), [QUOTE]);
  }

  lemma {:induction false} MembersPrintable(ms: seq<Member>)
    ensures Printable(PrintMembers(ms))
  {
    SmallPrintable([CLOSE]);
    if ms != [] {
      QuotePrintable(ms[0].0);
      if ms[0].1.Some? { QuotePrintable(ms[0].1.value); } else { SmallPrintable(PrintValue(None)); }
      SmallPrintable([COLON]);
      PrintableConcat([COLON], PrintValue(ms[0].1));
      PrintableConcat(Quote(ms[0].0), [COLON] + PrintValue(ms[0].1));
      if |ms| == 1 {
        PrintableConcat(PrintMember(ms[0]), [CLOSE]);
      } else {
        MembersPrintable(ms[1..]);
        SmallPrintable([COMMA]);
        PrintableConcat([COMMA], PrintMembers(ms[1..]));
        PrintableConcat(PrintMember(ms[0]), [COMMA] + PrintMembers(ms[1..]));
      }
    }
  }

  lemma CanonicalPrintable(e: CanonicalAuditEvent)
    ensures Printable(CanonicalizeEvent(e))
  {
    MembersPrintable(Members(e));
    SmallPrintable([OPEN]);
    PrintableConcat([OPEN], PrintMembers(Members(e)));
  }

  // ----- The hashed bytes -------------------------------------------------------------------

  type Sha = seq<Byte> -> seq<Byte>

  /** `update(prevHash)`, `update('\n')`, `update(canonical)`, each as UTF-8. */
  function Preimage(prevHash: Text, e: CanonicalAuditEvent): seq<Byte> {
    Utf8(prevHash) + ([NEWLINE as int] + Utf8(CanonicalizeEvent(e)))
  }

  function ComputeRecordHash(sha: Sha, prevHash: Text, e: CanonicalAuditEvent): Text {
    HexOf(sha(Preimage(prevHash, e)))
  }

  lemma {:induction false} Utf8HasNoNewline(t: Text)
    requires NoControls(t)
    ensures forall i :: 0 <= i < |Utf8(t)| ==> Utf8(t)[i] != 10
    decreases |t|
  {
    if t != [] {
      if |t| > 1 && IsHigh(t[0]) && IsLow(t[1]) {
        Utf8HasNoNewline(t[2..]);
      } else {
        Utf8HasNoNewline(t[1..]);
        assert forall i :: 0 <= i < |Utf8Unit(t[0])| ==> Utf8Unit(t[0])[i] != 10;
      }
    }
  }

  /** The part of the hashed bytes before the last newline, and the part after it. */
  function CutLast(b: seq<Byte>): Option<(seq<Byte>, seq<Byte>)>
    decreases |b|
  {
    if b == [] then None
    else if b[|b| - 1] == 10 then Some((b[..|b| - 1], []))
    else
      var earlier := CutLast(b[..|b| - 1]);
      if earlier.None? then None else Some((earlier.value.0, earlier.value.1 + [b[|b| - 1]]))
  }

  lemma {:induction false} CutsThere(x: seq<Byte>, y: seq<Byte>)
    requires forall i :: 0 <= i < |y| ==> y[i] != 10
    ensures CutLast(x + ([10] + y)) == Some((x, y))
    decreases |y|
  {
    var b := x + ([10] + y);
    if y == [] {
      assert b[..|b| - 1] == x;
    } else {
      CutsThere(x, y[..|y| - 1]);
      assert b[..|b| - 1] == x + ([10] + y[..|y| - 1]) && b[|b| - 1] == y[|y| - 1];
      assert y == y[..|y| - 1] + [y[|y| - 1]];
    }
  }

  /** The previous hash is the text before the last newline, and the event's canonical form the text after it. */
  lemma PreimageReadsBack(prevHash: Text, e: CanonicalAuditEvent)
    requires WellFormed(prevHash)
    ensures CutLast(Preimage(prevHash, e)).Some?
    ensures ReadUtf8(CutLast(Preimage(prevHash, e)).value.0) == Some(prevHash)
    ensures ReadUtf8(CutLast(Preimage(prevHash, e)).value.1) == Some(CanonicalizeEvent(e))
  {
    CanonicalPrintable(e);
    Utf8HasNoNewline(CanonicalizeEvent(e));
    CutsThere(Utf8(prevHash), Utf8(CanonicalizeEvent(e)));
    Utf8ReadsBack(prevHash);
    Utf8ReadsBack(CanonicalizeEvent(e));
  }

  /** The hashed bytes determine the previous hash and the event. */
  lemma PreimageInjective(p: Text, a: CanonicalAuditEvent, q: Text, b: CanonicalAuditEvent)
    requires WellFormed(p) && WellFormed(q)
    ensures Preimage(p, a) == Preimage(q, b) <==> p == q && a == b
  {
    if Preimage(p, a) == Preimage(q, b) {
      PreimageReadsBack(p, a);
      PreimageReadsBack(q, b);
      CanonicalInjective(a, b);
    }
  }

  // ----- Logs and replay --------------------------------------------------------------------

  /** How a record's hash is computed from the previous hash and the event. */
  type Hasher = (Text, CanonicalAuditEvent) -> Text

  function ChainHasher(sha: Sha): Hasher {
    (prevHash: Text, e: CanonicalAuditEvent) => ComputeRecordHash(sha, prevHash, e)
  }

  /** One stored record. `seqNo` and `recordedAt` are outside the hash. */
  datatype AuditEvent = AuditEvent(
    content: CanonicalAuditEvent,
    recordedAt: int,
    seqNo: int,
    prevHash: Text,
    recordHash: Text)
  {
    function RecomputeHash(hash: Hasher, prev: Text): Text {
      hash(prev, content)
    }
  }

  function Zeros(n: nat): seq<Byte> {
    seq(n, i => 0)
  }

  const ZERO_DIGEST := Zeros(32)
  const GENESIS_HASH := HexOf(ZERO_DIGEST)

  lemma {:induction false} HexOfZeros(n: nat)
    ensures |HexOf(Zeros(n))| == 2 * n && forall i :: 0 <= i < 2 * n ==> HexOf(Zeros(n))[i] == 48
  {
    if n > 0 {
      HexOfZeros(n - 1);
      assert Zeros(n)[1..] == Zeros(n - 1);
    }
  }

  /** The chain anchor is 64 zero characters. */
  lemma GenesisIs64Zeros()
    ensures |GENESIS_HASH| == 64 && forall i :: 0 <= i < 64 ==> GENESIS_HASH[i] == 48
  {
    HexOfZeros(32);
  }

  function HashBefore(log: seq<AuditEvent>, i: nat): Text
    requires i <= |log|
  {
    if i == 0 then GENESIS_HASH else log[i - 1].recordHash
  }

  function HeadHash(log: seq<AuditEvent>): Text {
    HashBefore(log, |log|)
  }

  predicate LinkOk(log: seq<AuditEvent>, i: nat)
    requires i < |log|
  {
    log[i].prevHash == HashBefore(log, i)
  }

  predicate ContentOk(hash: Hasher, log: seq<AuditEvent>, i: nat)
    requires i < |log|
  {
    log[i].recordHash == hash(HashBefore(log, i), log[i].content)
  }

  ghost predicate Replays(hash: Hasher, log: seq<AuditEvent>) {
    forall i :: 0 <= i < |log| ==> LinkOk(log, i) && ContentOk(hash, log, i)
  }

  datatype BreakReason = LinkBroken | ContentModified

  datatype Verification = Verification(valid: bool, count: nat, headHash: Text, brokenAt: Option<(int, BreakReason)>)

  /** Record i is the first that fails, and `v` says so, naming the check that failed. */
  ghost predicate Reports(hash: Hasher, log: seq<AuditEvent>, v: Verification, i: nat) {
    && i < |log|
    && (forall j :: 0 <= j < i ==> LinkOk(log, j) && ContentOk(hash, log, j))
    && !(LinkOk(log, i) && ContentOk(hash, log, i))
    && v.brokenAt == Some((log[i].seqNo, if LinkOk(log, i) then ContentModified else LinkBroken))
    && v.headHash == HashBefore(log, i)
  }

  /** The replay loop: accepts exactly the logs that replay, else reports the first break. */
  method VerifyChain(hash: Hasher, records: seq<AuditEvent>) returns (v: Verification)
    ensures v.valid <==> Replays(hash, records)
    ensures v.count == |records|
    ensures v.valid ==> v.headHash == HeadHash(records) && v.brokenAt.None?
    ensures !v.valid ==> exists i :: Reports(hash, records, v, i)
  {
    var prevHash := GENESIS_HASH;
    for i := 0 to |records|
      invariant prevHash == HashBefore(records, i)
      invariant forall j :: 0 <= j < i ==> LinkOk(records, j) && ContentOk(hash, records, j)
    {
      var record := records[i];
      if record.prevHash != prevHash {
        assert !LinkOk(records, i);
        v := Verification(false, |records|, prevHash, Some((record.seqNo, LinkBroken)));
        assert Reports(hash, records, v, i);
        return;
      }
      var recomputed := record.RecomputeHash(hash, prevHash);
      if recomputed != record.recordHash {
        assert !ContentOk(hash, records, i);
        v := Verification(false, |records|, prevHash, Some((record.seqNo, ContentModified)));
        assert Reports(hash, records, v, i);
        return;
      }
      assert LinkOk(records, i) && ContentOk(hash, records, i);
      prevHash := record.recordHash;
    }
    v := Verification(true, |records|, prevHash, None);
  }

  // ----- Tamper evidence --------------------------------------------------------------------

  function PreimageAt(log: seq<AuditEvent>, i: nat): seq<Byte>
    requires i < |log|
  {
    Preimage(HashBefore(log, i), log[i].content)
  }

  /** Two different preimages, one from each log, with the same digest. */
  ghost predicate Collide(sha: Sha, a: seq<AuditEvent>, b: seq<AuditEvent>) {
    exists i, j :: 0 <= i < |a| && 0 <= j < |b| && PreimageAt(a, i) != PreimageAt(b, j)
      && sha(PreimageAt(a, i)) == sha(PreimageAt(b, j))
  }

  /** A preimage of the genesis anchor. */
  ghost predicate HitsGenesis(sha: Sha, a: seq<AuditEvent>) {
    exists i :: 0 <= i < |a| && sha(PreimageAt(a, i)) == ZERO_DIGEST
  }

  function Contents(log: seq<AuditEvent>): seq<CanonicalAuditEvent> {
    seq(|log|, i requires 0 <= i < |log| => log[i].content)
  }

  lemma HashesWellFormed(sha: Sha, log: seq<AuditEvent>, i: nat)
    requires Replays(ChainHasher(sha), log) && i <= |log|
    ensures WellFormed(HashBefore(log, i))
  {
    if i == 0 {
      HexOfIsLowerCase(ZERO_DIGEST);
    } else {
      assert ContentOk(ChainHasher(sha), log, i - 1);
      HexOfIsLowerCase(sha(PreimageAt(log, i - 1)));
    }
    AsciiWellFormed(HashBefore(log, i));
  }

  lemma ReplaysPrefix(hash: Hasher, log: seq<AuditEvent>, n: nat)
    requires Replays(hash, log) && n <= |log|
    ensures Replays(hash, log[..n]) && HeadHash(log[..n]) == HashBefore(log, n)
  {
    var p := log[..n];
    forall i | 0 <= i < n
      ensures LinkOk(p, i) && ContentOk(hash, p, i)
    {
      assert LinkOk(log, i) && ContentOk(hash, log, i) && HashBefore(p, i) == HashBefore(log, i);
    }
  }

  lemma SamePreimages(log: seq<AuditEvent>, n: nat)
    requires n <= |log|
    ensures forall i :: 0 <= i < n ==> PreimageAt(log[..n], i) == PreimageAt(log, i)
  {
    forall i | 0 <= i < n
      ensures PreimageAt(log[..n], i) == PreimageAt(log, i)
    {
      assert HashBefore(log[..n], i) == HashBefore(log, i);
    }
  }

  /** A truncated log still replays: only an anchored head hash can tell. */
  lemma TruncationReplays(sha: Sha, log: seq<AuditEvent>, n: nat)
    requires Replays(ChainHasher(sha), log) && n < |log|
    ensures Replays(ChainHasher(sha), log[..n])
    ensures HeadHash(log[..n]) == HeadHash(log) ==> Collide(sha, log[..n], log) || HitsGenesis(sha, log)
  {
    ReplaysPrefix(ChainHasher(sha), log, n);
    if HeadHash(log[..n]) == HeadHash(log) {
      SameHeadSameLog(sha, log[..n], log);
      assert |Contents(log[..n])| != |Contents(log)|;
      SamePreimages(log, n);
      LiftGenesis(sha, log, log[..n]);
    }
  }

  lemma SamePreimageSameRecord(sha: Sha, a: seq<AuditEvent>, m: nat, b: seq<AuditEvent>, n: nat)
    requires Replays(ChainHasher(sha), a) && Replays(ChainHasher(sha), b) && m < |a| && n < |b|
    requires PreimageAt(a, m) == PreimageAt(b, n)
    ensures HashBefore(a, m) == HashBefore(b, n) && a[m].content == b[n].content
  {
    HashesWellFormed(sha, a, m);
    HashesWellFormed(sha, b, n);
    PreimageInjective(HashBefore(a, m), a[m].content, HashBefore(b, n), b[n].content);
  }

  /** Equal head hashes: equal last events, linked to equal hashes, unless their preimages collide. */
  lemma LastRecordsAgree(sha: Sha, a: seq<AuditEvent>, b: seq<AuditEvent>)
    requires Replays(ChainHasher(sha), a) && Replays(ChainHasher(sha), b) && HeadHash(a) == HeadHash(b)
    requires a != [] && b != []
    ensures || Collide(sha, a, b)
            || (HashBefore(a, |a| - 1) == HashBefore(b, |b| - 1) && a[|a| - 1].content == b[|b| - 1].content)
  {
    var m, n := |a| - 1, |b| - 1;
    assert ContentOk(ChainHasher(sha), a, m) && ContentOk(ChainHasher(sha), b, n);
    HexOfInjective(sha(PreimageAt(a, m)), sha(PreimageAt(b, n)));
    if PreimageAt(a, m) == PreimageAt(b, n) {
      SamePreimageSameRecord(sha, a, m, b, n);
    }
  }

  /**
   Two logs that replay to the same head hash hold the same events in the same order, or two of
   their own preimages collide, or one of them hits the genesis anchor.
   */
  lemma {:induction false} SameHeadSameLog(sha: Sha, a: seq<AuditEvent>, b: seq<AuditEvent>)
    requires Replays(ChainHasher(sha), a) && Replays(ChainHasher(sha), b) && HeadHash(a) == HeadHash(b)
    ensures Contents(a) == Contents(b) || Collide(sha, a, b) || HitsGenesis(sha, a) || HitsGenesis(sha, b)
    decreases |a|
  {
    if a == [] && b == [] {
    } else if a == [] {
      LastHitsGenesis(sha, b);
    } else if b == [] {
      LastHitsGenesis(sha, a);
    } else {
      var m, n := |a| - 1, |b| - 1;
      LastRecordsAgree(sha, a, b);
      if !Collide(sha, a, b) {
        ReplaysPrefix(ChainHasher(sha), a, m);
        ReplaysPrefix(ChainHasher(sha), b, n);
        SameHeadSameLog(sha, a[..m], b[..n]);
        LiftFindings(sha, a, b);
      }
    }
  }

  lemma LastHitsGenesis(sha: Sha, a: seq<AuditEvent>)
    requires Replays(ChainHasher(sha), a) && a != [] && HeadHash(a) == GENESIS_HASH
    ensures HitsGenesis(sha, a)
  {
    var n := |a| - 1;
    assert ContentOk(ChainHasher(sha), a, n);
    HexOfInjective(sha(PreimageAt(a, n)), ZERO_DIGEST);
  }

  /** What was found in the two prefixes holds of the two logs. */
  lemma LiftFindings(sha: Sha, a: seq<AuditEvent>, b: seq<AuditEvent>)
    requires a != [] && b != [] && a[|a| - 1].content == b[|b| - 1].content
    ensures var p, q := a[..|a| - 1], b[..|b| - 1];
            && (Collide(sha, p, q) ==> Collide(sha, a, b))
            && (HitsGenesis(sha, p) ==> HitsGenesis(sha, a))
            && (HitsGenesis(sha, q) ==> HitsGenesis(sha, b))
            && (Contents(p) == Contents(q) ==> Contents(a) == Contents(b))
  {
    var p, q := a[..|a| - 1], b[..|b| - 1];
    SamePreimages(a, |a| - 1);
    SamePreimages(b, |b| - 1);
    LiftGenesis(sha, a, p);
    LiftGenesis(sha, b, q);
    LiftCollision(sha, a, b, p, q);
    assert Contents(a) == Contents(p) + [a[|a| - 1].content];
    assert Contents(b) == Contents(q) + [b[|b| - 1].content];
  }

  lemma LiftGenesis(sha: Sha, a: seq<AuditEvent>, p: seq<AuditEvent>)
    requires |p| <= |a| && forall i :: 0 <= i < |p| ==> PreimageAt(p, i) == PreimageAt(a, i)
    ensures HitsGenesis(sha, p) ==> HitsGenesis(sha, a)
  {
    if HitsGenesis(sha, p) {
      var i :| 0 <= i < |p| && sha(PreimageAt(p, i)) == ZERO_DIGEST;
      assert sha(PreimageAt(a, i)) == ZERO_DIGEST;
    }
  }

  lemma LiftCollision(sha: Sha, a: seq<AuditEvent>, b: seq<AuditEvent>, p: seq<AuditEvent>, q: seq<AuditEvent>)
    requires |p| <= |a| && forall i :: 0 <= i < |p| ==> PreimageAt(p, i) == PreimageAt(a, i)
    requires |q| <= |b| && forall i :: 0 <= i < |q| ==> PreimageAt(q, i) == PreimageAt(b, i)
    ensures Collide(sha, p, q) ==> Collide(sha, a, b)
  {
    if Collide(sha, p, q) {
      var i, j :| 0 <= i < |p| && 0 <= j < |q| && PreimageAt(p, i) != PreimageAt(q, j)
        && sha(PreimageAt(p, i)) == sha(PreimageAt(q, j));
      assert PreimageAt(a, i) != PreimageAt(b, j);
    }
  }

  // ----- Exactly what replay sees ---------------------------------------------------------------

  /** The same records but for their numbers and dates, which are not hashed. */
  predicate SameSigned(a: seq<AuditEvent>, b: seq<AuditEvent>) {
    && |a| == |b|
    && forall i :: 0 <= i < |a| ==> b[i] == a[i].(seqNo := b[i].seqNo, recordedAt := b[i].recordedAt)
  }

  /** Renumbering or re-dating records is invisible to replay. */
  lemma UnsignedFieldsInvisible(hash: Hasher, a: seq<AuditEvent>, b: seq<AuditEvent>)
    requires SameSigned(a, b)
    ensures Replays(hash, a) <==> Replays(hash, b)
    ensures HeadHash(a) == HeadHash(b)
  {
    forall i | 0 <= i < |a|
      ensures LinkOk(a, i) <==> LinkOk(b, i)
      ensures ContentOk(hash, a, i) <==> ContentOk(hash, b, i)
    {
      assert HashBefore(a, i) == HashBefore(b, i);
    }
  }

  lemma {:induction false} SameContentsSameHashes(hash: Hasher, a: seq<AuditEvent>, b: seq<AuditEvent>, n: nat)
    requires Replays(hash, a) && Replays(hash, b) && Contents(a) == Contents(b) && n <= |a| == |b|
    ensures HashBefore(a, n) == HashBefore(b, n)
  {
    if n > 0 {
      SameContentsSameHashes(hash, a, b, n - 1);
      assert ContentOk(hash, a, n - 1) && ContentOk(hash, b, n - 1);
      assert Contents(a)[n - 1] == Contents(b)[n - 1];
    }
  }

  /** The events determine every hashed field of an accepted log. */
  lemma SameContentsSameSigned(hash: Hasher, a: seq<AuditEvent>, b: seq<AuditEvent>)
    requires Replays(hash, a) && Replays(hash, b) && Contents(a) == Contents(b)
    ensures SameSigned(a, b)
  {
    assert |Contents(a)| == |Contents(b)|;
    forall i | 0 <= i < |a|
      ensures b[i] == a[i].(seqNo := b[i].seqNo, recordedAt := b[i].recordedAt)
    {
      SameContentsSameHashes(hash, a, b, i);
      SameContentsSameHashes(hash, a, b, i + 1);
      assert LinkOk(a, i) && LinkOk(b, i) && Contents(a)[i] == Contents(b)[i];
    }
  }

  /**
   Tamper evidence. Against the head hash of an accepted log, any list of records is accepted if it
   differs from that log in numbers and dates at most; and if it is accepted and differs in anything
   else (an edited event, an edited hash, a deletion, an insertion, a reordering), then two of the
   lists' own preimages collide, or one of them hashes to the genesis anchor.
   */
  lemma TamperingIsEvident(sha: Sha, original: seq<AuditEvent>, tampered: seq<AuditEvent>)
    requires Replays(ChainHasher(sha), original)
    ensures SameSigned(original, tampered) ==>
              Replays(ChainHasher(sha), tampered) && HeadHash(tampered) == HeadHash(original)
    ensures Replays(ChainHasher(sha), tampered) && HeadHash(tampered) == HeadHash(original) ==>
              || SameSigned(original, tampered)
              || Collide(sha, original, tampered) || HitsGenesis(sha, original) || HitsGenesis(sha, tampered)
  {
    if SameSigned(original, tampered) {
      UnsignedFieldsInvisible(ChainHasher(sha), original, tampered);
    }
    if Replays(ChainHasher(sha), tampered) && HeadHash(tampered) == HeadHash(original) {
      SameHeadSameLog(sha, original, tampered);
      if Contents(original) == Contents(tampered) {
        SameContentsSameSigned(ChainHasher(sha), original, tampered);
      }
    }
  }

  /** Made by deleting, reordering or repeating records of the log. */
  ghost predicate MadeOf(tampered: seq<AuditEvent>, log: seq<AuditEvent>) {
    forall i :: 0 <= i < |tampered| ==> tampered[i] in log
  }

  /** No hash of the chain, the anchor and the head included, occurs twice. */
  ghost predicate DistinctHashes(log: seq<AuditEvent>) {
    forall i, j :: 0 <= i < j <= |log| ==> HashBefore(log, i) != HashBefore(log, j)
  }

  lemma {:induction false} ReplayedPiecesArePrefix(hash: Hasher, log: seq<AuditEvent>, tampered: seq<AuditEvent>, n: nat)
    requires Replays(hash, log) && DistinctHashes(log) && MadeOf(tampered, log) && Replays(hash, tampered) && n <= |tampered|
    ensures tampered[..n] <= log
  {
    if n > 0 {
      ReplayedPiecesArePrefix(hash, log, tampered, n - 1);
      assert tampered[..n - 1] == log[..n - 1];
      assert HashBefore(tampered, n - 1) == HashBefore(log, n - 1);
      var m :| 0 <= m < |log| && log[m] == tampered[n - 1];
      assert LinkOk(tampered, n - 1) && LinkOk(log, m);
      assert m == n - 1;
      assert tampered[..n] == tampered[..n - 1] + [tampered[n - 1]];
    }
  }

  /** Where a hash comes back, the record that followed it the first time fits again. */
  lemma RepeatedHashAdmits(hash: Hasher, log: seq<AuditEvent>, i: nat, j: nat)
    requires Replays(hash, log) && i < j <= |log| && HashBefore(log, i) == HashBefore(log, j)
    ensures MadeOf(log[..j] + [log[i]], log) && Replays(hash, log[..j] + [log[i]])
  {
    var t := log[..j] + [log[i]];
    forall k | 0 <= k < |t|
      ensures LinkOk(t, k) && ContentOk(hash, t, k)
    {
      var m := if k < j then k else i;
      assert LinkOk(log, m) && ContentOk(hash, log, m);
      assert HashBefore(t, k) == HashBefore(log, k);
    }
  }

  /**
   Without an anchored head, replay alone accepts, of all the lists made by deleting, reordering or
   repeating an accepted log's records, exactly its beginnings, if and only if its chain repeats no hash.
   */
  lemma OnlyTruncationsReplayIff(hash: Hasher, log: seq<AuditEvent>)
    requires Replays(hash, log) && forall i, j :: 0 <= i < j < |log| ==> log[i] != log[j]
    ensures (forall tampered :: MadeOf(tampered, log) ==> (Replays(hash, tampered) <==> tampered <= log)) <==> DistinctHashes(log)
  {
    if DistinctHashes(log) {
      forall tampered | MadeOf(tampered, log)
        ensures Replays(hash, tampered) <==> tampered <= log
      {
        if Replays(hash, tampered) {
          ReplayedPiecesArePrefix(hash, log, tampered, |tampered|);
          assert tampered[..|tampered|] == tampered;
        }
        if tampered <= log {
          ReplaysPrefix(hash, log, |tampered|);
          assert log[..|tampered|] == tampered;
        }
      }
    } else {
      var i, j :| 0 <= i < j <= |log| && HashBefore(log, i) == HashBefore(log, j);
      var t := log[..j] + [log[i]];
      RepeatedHashAdmits(hash, log, i, j);
      assert t[j] == log[i];
      assert !(t <= log);
    }
  }

  /** A chain that repeats a hash has produced a collision, or a preimage of the anchor. */
  lemma RepeatedHashIsCollision(sha: Sha, log: seq<AuditEvent>)
    requires Replays(ChainHasher(sha), log) && !DistinctHashes(log)
    ensures Collide(sha, log, log) || HitsGenesis(sha, log)
  {
    var i, j :| 0 <= i < j <= |log| && HashBefore(log, i) == HashBefore(log, j);
    ReplaysPrefix(ChainHasher(sha), log, i);
    ReplaysPrefix(ChainHasher(sha), log, j);
    SameHeadSameLog(sha, log[..i], log[..j]);
    assert |Contents(log[..i])| != |Contents(log[..j])|;
    SamePreimages(log, i);
    SamePreimages(log, j);
    LiftGenesis(sha, log, log[..i]);
    LiftGenesis(sha, log, log[..j]);
    LiftCollision(sha, log, log, log[..i], log[..j]);
  }
}
