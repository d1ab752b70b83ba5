/** The two-stage validator (engine/gql/validator.go): its checks range over runes, the wire carries bytes. */
module GqlValidator {
  import opened Wrappers
  import opened Bytes
  import opened GqlOpcodes
  import opened GqlTypes
  import opened GqlDecoder
  import opened Utf8
  import GqlFrame

  datatype Session = Session(unlocked: bool, activeHandle: bytes, userID: bytes, roles: set<bytes>)

  datatype Part =
    | Version | Opcode | PayloadSize | EmptyFrame | FieldCount | Undecodable
    | Namespace | EntryID | Category | Title | Fields | OperationMismatch

  datatype Reason = NoSession | VaultLocked | NoHandle | NoCredentials | WrongNamespace

  datatype Verdict = Accepted(query: Query) | NotAQuery | SyntacticError(part: Part) | SemanticError(reason: Reason)

  // ---------------------------------------------------------------- characters

  /** go: isIdentChar */
  predicate IsIdentChar(c: nat) {
    || 'a' as nat <= c <= 'z' as nat
    || 'A' as nat <= c <= 'Z' as nat
    || '0' as nat <= c <= '9' as nat
    || c == '_' as nat || c == '-' as nat || c == '.' as nat
  }

  predicate IsTextByte(b: byte) { (b >= 0x20 || b == 9) && b != 0x7F }

  predicate AllIdent(s: bytes) { forall i | 0 <= i < |s| :: IsIdentChar(s[i]) }

  predicate AllText(s: bytes) { forall i | 0 <= i < |s| :: IsTextByte(s[i]) }

  /** go: validateIdentifier. Whatever the string's encoding, valid UTF-8 or not, the verdict is about its bytes. */
  method ValidateIdentifier(value: bytes) returns (ok: bool)
    ensures ok <==> AllIdent(value)
  {
    var i := 0;
    while i < |value|
      invariant 0 <= i <= |value|
      invariant AllIdent(value[..i])
    {
      var (c, width) := DecodeRune(value[i..]);
      AsciiRunesAreBytes(value[i..]);
      assert value[i..][0] == value[i];
      if !IsIdentChar(c) { return false; }
      i := i + width;
    }
    assert value[..i] == value;
    return true;
  }

  /** go: validatePrintable */
  method ValidatePrintable(value: bytes) returns (ok: bool)
    ensures ok <==> AllText(value)
  {
    var i := 0;
    while i < |value|
      invariant 0 <= i <= |value|
      invariant AllText(value[..i])
    {
      var (c, width) := DecodeRune(value[i..]);
      AsciiRunesAreBytes(value[i..]);
      assert value[i..][0] == value[i];
      if c < 0x20 && c != 9 { return false; }
      if c == 0x7F { return false; }
      assert forall j | i <= j < i + width :: value[j] == value[i..][j - i];
      i := i + width;
    }
    assert value[..i] == value;
    return true;
  }

  // ---------------------------------------------------------------- stage 1

  predicate IsIdentifier(s: bytes, maxLen: nat) { |s| <= maxLen && AllIdent(s) }

  predicate IsText(s: bytes, maxLen: nat) { |s| <= maxLen && AllText(s) }

  ghost predicate FieldsClean(m: map<bytes, bytes>) {
    forall k | k in m :: IsIdentifier(k, MAX_FIELD_KEY_LEN) && IsText(m[k], MAX_FIELD_VALUE_LEN)
  }

  predicate OpcodeFits(opcode: byte, op: bytes) {
    && (opcode == OPCODE_QUERY ==> IsReadOperation(op))
    && (opcode == OPCODE_MUTATE ==> IsWriteOperation(op))
  }

  /** What stage 1 asks of a decoded query, byte by byte. */
  ghost predicate Clean(q: Query, opcode: byte) {
    && q.namespace != [] && IsIdentifier(q.namespace, MAX_NAMESPACE_LEN)
    && IsIdentifier(q.entryID, MAX_ENTRY_ID_LEN)
    && IsIdentifier(q.category, MAX_CATEGORY_LEN)
    && IsText(q.title, MAX_FIELD_VALUE_LEN)
    && |q.fields| <= MAX_FIELDS_COUNT && FieldsClean(q.fields)
    && OpcodeFits(opcode, q.operation)
  }

  /** The bytes of identifiers and of texts, by number. */
  lemma CharactersWritten(c: byte)
    ensures IsIdentChar(c) <==> 97 <= c <= 122 || 65 <= c <= 90 || 48 <= c <= 57 || c in [45, 46, 95]
    ensures IsTextByte(c) <==> c == 9 || 32 <= c <= 126 || 128 <= c
  {
  }

  /** What is accepted, in numbers: how long each part may be, which bytes it may hold, which operation goes with which
      opcode. */
  lemma CleanMeans(q: Query, opcode: byte)
    requires opcode == 1 || opcode == 2
    ensures Clean(q, opcode) <==>
            && 1 <= |q.namespace| <= 128 && |q.entryID| <= 64 && |q.category| <= 32 && |q.title| <= 8192
            && |q.fields| <= 100 && (forall k | k in q.fields :: |k| <= 64 && |q.fields[k]| <= 8192)
            && AllIdent(q.namespace) && AllIdent(q.entryID) && AllIdent(q.category) && AllText(q.title)
            && (forall k | k in q.fields :: AllIdent(k) && AllText(q.fields[k]))
            && (opcode == 1 ==> IsReadOperation(q.operation)) && (opcode == 2 ==> IsWriteOperation(q.operation))
  {
  }

  /** How many of the parts, in the order they are looked at, are in order before the first that is not. */
  ghost function PartsInOrder(q: Query, opcode: byte): nat {
    if q.namespace == [] || !IsIdentifier(q.namespace, MAX_NAMESPACE_LEN) then 0
    else if !IsIdentifier(q.entryID, MAX_ENTRY_ID_LEN) then 1
    else if !IsIdentifier(q.category, MAX_CATEGORY_LEN) then 2
    else if !IsText(q.title, MAX_FIELD_VALUE_LEN) then 3
    else if |q.fields| > MAX_FIELDS_COUNT || !FieldsClean(q.fields) then 4
    else if !OpcodeFits(opcode, q.operation) then 5
    else 6
  }

  /** The part an error names is the first at fault. */
  ghost predicate AtFault(q: Query, opcode: byte, part: Part) {
    match part
    case Namespace => PartsInOrder(q, opcode) == 0
    case EntryID => PartsInOrder(q, opcode) == 1
    case Category => PartsInOrder(q, opcode) == 2
    case Title => PartsInOrder(q, opcode) == 3
    case Fields => PartsInOrder(q, opcode) == 4
    case OperationMismatch => PartsInOrder(q, opcode) == 5
    case _ => false
  }

  method ValidateFields(m: map<bytes, bytes>) returns (ok: bool)
    ensures ok <==> FieldsClean(m)
  {
    var remaining := m.Keys;
    while remaining != {}
      invariant remaining <= m.Keys
      invariant forall k | k in m && k !in remaining ::
          IsIdentifier(k, MAX_FIELD_KEY_LEN) && IsText(m[k], MAX_FIELD_VALUE_LEN)
      decreases |remaining|
    {
      var k :| k in remaining;
      if |k| > MAX_FIELD_KEY_LEN { return false; }
      var identOk := ValidateIdentifier(k);
      if !identOk { return false; }
      if |m[k]| > MAX_FIELD_VALUE_LEN { return false; }
      var textOk := ValidatePrintable(m[k]);
      if !textOk { return false; }
      remaining := remaining - {k};
    }
    return true;
  }

  /** go: validateQuery */
  method ValidateQuery(q: Query, opcode: byte) returns (err: Option<Part>)
    ensures err.None? <==> Clean(q, opcode)
    ensures err.Some? ==> AtFault(q, opcode, err.value)
  {
    if q.namespace == [] || |q.namespace| > MAX_NAMESPACE_LEN { return Some(Namespace); }
    var ok := ValidateIdentifier(q.namespace);
    if !ok { return Some(Namespace); }
    if q.entryID != [] {
      if |q.entryID| > MAX_ENTRY_ID_LEN { return Some(EntryID); }
      ok := ValidateIdentifier(q.entryID);
      if !ok { return Some(EntryID); }
    }
    if q.category != [] {
      if |q.category| > MAX_CATEGORY_LEN { return Some(Category); }
      ok := ValidateIdentifier(q.category);
      if !ok { return Some(Category); }
    }
    if q.title != [] {
      if |q.title| > MAX_FIELD_VALUE_LEN { return Some(Title); }
      ok := ValidatePrintable(q.title);
      if !ok { return Some(Title); }
    }
    if |q.fields| > MAX_FIELDS_COUNT { return Some(Fields); }
    ok := ValidateFields(q.fields);
    if !ok { return Some(Fields); }
    if opcode == OPCODE_QUERY && !IsReadOperation(q.operation) { return Some(OperationMismatch); }
    if opcode == OPCODE_MUTATE && !IsWriteOperation(q.operation) { return Some(OperationMismatch); }
    return None;
  }

  // ---------------------------------------------------------------- stage 2

  /** An unlocked session with a key handle; credentials for a write; the user's own namespace, unless the
      session is anonymous or an administrator's. */
  predicate Authorised(q: Query, session: Option<Session>) {
    && session.Some?
    && var s := session.value;
    && s.unlocked && s.activeHandle != []
    && (IsWriteOperation(q.operation) ==> q.credentials != [])
    && (q.namespace == s.userID || s.userID == [] || q.namespace == [] || Ascii("admin") in s.roles)
  }

  /** go: validateACL */
  function ValidateACL(q: Query, session: Option<Session>): (err: Option<Reason>)
    ensures err.None? <==> Authorised(q, session)
    ensures err == Some(NoSession) <==> session.None?
    ensures err == Some(VaultLocked) <==> session.Some? && !session.value.unlocked
    ensures err == Some(NoHandle) <==> session.Some? && session.value.unlocked && session.value.activeHandle == []
    ensures err == Some(NoCredentials) ==> IsWriteOperation(q.operation) && q.credentials == []
    ensures err == Some(WrongNamespace) ==> session.Some? && q.namespace != session.value.userID
  {
    if session.None? then Some(NoSession)
    else if !session.value.unlocked then Some(VaultLocked)
    else if session.value.activeHandle == [] then Some(NoHandle)
    else if IsWriteOperation(q.operation) && |q.credentials| == 0 then Some(NoCredentials)
    else
      var userID := session.value.userID;
      if userID != [] && q.namespace != [] && q.namespace != userID && Ascii("admin") !in session.value.roles
      then Some(WrongNamespace) else None
  }

  // ---------------------------------------------------------------- both

  /** Stage 1 passes and yields q. */
  ghost predicate WellFormedAs(f: GqlFrame.Frame, q: Query) {
    && f.version == VERSION
    && (f.opcode == OPCODE_QUERY || f.opcode == OPCODE_MUTATE)
    && f.payloadSize <= MAX_PAYLOAD_SIZE
    && ParseQuery(f.payload, []) == Ok(q)
    && Clean(q, f.opcode)
  }

  /** The first thing wrong with a frame: one check after another, the query's parts last. */
  ghost predicate FrameFault(f: GqlFrame.Frame, part: Part) {
    if f.version != 1 then part == Version
    else if f.opcode !in [1, 2, 3, 4] then part == Opcode
    else
      && f.opcode in [1, 2]
      && if f.payloadSize > 16 * 1024 * 1024 then part == PayloadSize
         else if f.payload == [] then part == EmptyFrame
         else if f.payload[0] > 100 then part == FieldCount
         else if ParseQuery(f.payload, []).Err? then part == Undecodable
         else AtFault(ParseQuery(f.payload, []).value, f.opcode, part)
  }

  /** The frame carries q, and the session may run it. */
  ghost predicate Admits(f: GqlFrame.Frame, session: Option<Session>, q: Query) {
    WellFormedAs(f, q) && Authorised(q, session)
  }

  /** go: ValidateFrame */
  method ValidateFrame(f: GqlFrame.Frame, session: Option<Session>) returns (v: Verdict)
    ensures forall q :: v == Accepted(q) <==> Admits(f, session, q)
    ensures v.NotAQuery? <==> f.version == VERSION && (f.opcode == OPCODE_RESULT || f.opcode == OPCODE_ERROR)
    ensures v.SemanticError? ==> exists q :: WellFormedAs(f, q) && ValidateACL(q, session) == Some(v.reason)
    ensures v.SyntacticError? ==> FrameFault(f, v.part) && forall q :: !WellFormedAs(f, q)
  {
    if f.version != VERSION { return SyntacticError(Version); }
    if !IsValidOpcode(f.opcode) { return SyntacticError(Opcode); }
    if f.opcode == OPCODE_RESULT || f.opcode == OPCODE_ERROR { return NotAQuery; }
    if f.payloadSize > MAX_PAYLOAD_SIZE { return SyntacticError(PayloadSize); }
    if |f.payload| == 0 { return SyntacticError(EmptyFrame); }
    if f.payload[0] > MAX_FIELDS_COUNT { return SyntacticError(FieldCount); }
    var decoded := DecodeQuery(f.payload, []);
    if decoded.Err? { return SyntacticError(Undecodable); }
    var err := ValidateQuery(decoded.value, f.opcode);
    if err.Some? { return SyntacticError(err.value); }
    assert WellFormedAs(f, decoded.value);
    var denied := ValidateACL(decoded.value, session);
    if denied.Some? { return SemanticError(denied.value); }
    return Accepted(decoded.value);
  }
}
