// The byte stream behind the state hash of an exported note (`note_state_sha256` and
// `update_hash_component` in crates/marginalis-archive/src/documents.rs).
module StateHash {
  import opened Domain
  import opened Unicode
  import opened Sequences
  import opened Sorting

  const U64_LIMIT := 0x1_0000_0000_0000_0000

  datatype AclEntry = AclEntry(issuer: string, subject: string, permission: Permission)

  // An attachment as the manifest lists it. The path of its file is not part of the state.
  datatype Attachment = Attachment(
    file: string,
    attachmentId: string,
    fileName: string,
    mediaType: MediaType,
    byteLength: nat,
    sha256: string,
    createdAtMs: I64,
    createdByIssuer: string,
    createdBySubject: string)

  function Unfiled(a: Attachment): Attachment {
    a.(file := "")
  }

  // ---------------------------------------------------------------- words

  function Pow256(k: nat): nat {
    if k == 0 then 1 else 0x100 * Pow256(k - 1)
  }

  // The k low bytes of n, most significant first.
  function BigEndian(n: nat, k: nat): (bytes: seq<Byte>)
    ensures |bytes| == k
  {
    if k == 0 then [] else BigEndian(n / 0x100, k - 1) + [n % 0x100]
  }

  // A length as an unsigned 64-bit word; larger lengths saturate.
  function LengthWord(n: nat): (bytes: seq<Byte>)
    ensures |bytes| == 8
  {
    BigEndian(if n < U64_LIMIT then n else U64_LIMIT - 1, 8)
  }

  // A signed 64-bit word in two's complement.
  function SignedWord(x: I64): (bytes: seq<Byte>)
    ensures |bytes| == 8
  {
    BigEndian(if x < 0 then x + U64_LIMIT else x, 8)
  }

  lemma {:induction false} BigEndianInjective(n: nat, m: nat, k: nat)
    requires n < Pow256(k) && m < Pow256(k) && BigEndian(n, k) == BigEndian(m, k)
    ensures n == m
  {
    if k > 0 {
      assert BigEndian(n, k)[k - 1] == n % 0x100 && BigEndian(m, k)[k - 1] == m % 0x100;
      assert BigEndian(n, k)[..k - 1] == BigEndian(n / 0x100, k - 1);
      assert BigEndian(m, k)[..k - 1] == BigEndian(m / 0x100, k - 1);
      BigEndianInjective(n / 0x100, m / 0x100, k - 1);
    }
  }

  lemma {:induction false} BigEndianOfSmall(n: nat, k: nat)
    requires n < 0x100 && k >= 2
    ensures BigEndian(n, k)[0] == 0
  {
    if k > 2 {
      BigEndianOfSmall(0, k - 1);
    } else {
      assert BigEndian(0, 1) == [] + [0];
    }
  }

  lemma {:induction false} Pow256Of8()
    ensures Pow256(8) == U64_LIMIT
  {
    assert Pow256(4) == 0x1_0000_0000;
  }

  lemma {:induction false} WordsInjective(n: nat, m: nat)
    requires n < U64_LIMIT && m < U64_LIMIT && BigEndian(n, 8) == BigEndian(m, 8)
    ensures n == m
  {
    Pow256Of8();
    BigEndianInjective(n, m, 8);
  }

  // ---------------------------------------------------------------- framing

  function Frame(value: seq<Byte>): seq<Byte> {
    LengthWord(|value|) + value
  }

  function FrameText(text: string): seq<Byte> {
    Frame(Utf8(text))
  }

  // What a 64-bit machine can hold.
  predicate Addressable(text: string) {
    |Utf8(text)| < U64_LIMIT
  }

  // A length prefix tells where the component ends.
  lemma {:induction false} FrameIsPrefixFree(a: seq<Byte>, x: seq<Byte>, b: seq<Byte>, y: seq<Byte>)
    requires |a| < U64_LIMIT && |b| < U64_LIMIT
    requires Frame(a) + x == Frame(b) + y
    ensures a == b && x == y
  {
    Assoc3(LengthWord(|a|), a, x);
    Assoc3(LengthWord(|b|), b, y);
    EqualSplits(LengthWord(|a|), a + x, LengthWord(|b|), b + y);
    WordsInjective(|a|, |b|);
    EqualSplits(a, x, b, y);
  }

  lemma {:induction false} FrameTextIsPrefixFree(a: string, x: seq<Byte>, b: string, y: seq<Byte>)
    requires Addressable(a) && Addressable(b)
    requires FrameText(a) + x == FrameText(b) + y
    ensures a == b && x == y
  {
    FrameIsPrefixFree(Utf8(a), x, Utf8(b), y);
    Utf8Injective(a, b);
  }

  // ---------------------------------------------------------------- records

  function PermissionByte(permission: Permission): Byte {
    match permission
    case Read => 1
    case Edit => 2
  }

  function AclBytes(e: AclEntry): seq<Byte> {
    FrameText(e.issuer) + (FrameText(e.subject) + [PermissionByte(e.permission)])
  }

  function AttachmentBytes(a: Attachment): seq<Byte> {
    FrameText(a.attachmentId) + (FrameText(a.fileName) + (FrameText(a.mediaType.Name()) + (FrameText(a.sha256)
    + (FrameText(a.createdByIssuer) + (FrameText(a.createdBySubject)
    + (LengthWord(a.byteLength) + SignedWord(a.createdAtMs)))))))
  }

  // The records after the source: access list entries, then attachments, without any counts.
  function Records(acl: seq<AclEntry>, attachments: seq<Attachment>): seq<Byte>
    decreases |acl| + |attachments|
  {
    if acl != [] then AclBytes(acl[0]) + Records(acl[1..], attachments)
    else if attachments != [] then AttachmentBytes(attachments[0]) + Records([], attachments[1..])
    else []
  }

  predicate AddressableAcl(e: AclEntry) {
    Addressable(e.issuer) && Addressable(e.subject)
  }

  predicate AddressableAttachment(a: Attachment) {
    && Addressable(a.attachmentId) && Addressable(a.fileName) && Addressable(a.sha256)
    && Addressable(a.createdByIssuer) && Addressable(a.createdBySubject) && a.byteLength < U64_LIMIT
  }

  predicate AddressableRecords(acl: seq<AclEntry>, attachments: seq<Attachment>) {
    && (forall i | 0 <= i < |acl| :: AddressableAcl(acl[i]))
    && forall i | 0 <= i < |attachments| :: AddressableAttachment(attachments[i])
  }

  lemma {:induction false} AclBytesArePrefixFree(e: AclEntry, x: seq<Byte>, f: AclEntry, y: seq<Byte>)
    requires AddressableAcl(e) && AddressableAcl(f) && AclBytes(e) + x == AclBytes(f) + y
    ensures e == f && x == y
  {
    RegroupAcl(e, x);
    RegroupAcl(f, y);
    FrameTextIsPrefixFree(e.issuer, FrameText(e.subject) + ([PermissionByte(e.permission)] + x),
                          f.issuer, FrameText(f.subject) + ([PermissionByte(f.permission)] + y));
    FrameTextIsPrefixFree(e.subject, [PermissionByte(e.permission)] + x, f.subject, [PermissionByte(f.permission)] + y);
    EqualSplits([PermissionByte(e.permission)], x, [PermissionByte(f.permission)], y);
  }

  lemma {:induction false} RegroupAcl(e: AclEntry, x: seq<Byte>)
    ensures AclBytes(e) + x == FrameText(e.issuer) + (FrameText(e.subject) + ([PermissionByte(e.permission)] + x))
  {
    Assoc3(FrameText(e.subject), [PermissionByte(e.permission)], x);
    Assoc3(FrameText(e.issuer), FrameText(e.subject) + [PermissionByte(e.permission)], x);
  }

  // What follows the first two components of an attachment record.
  function AfterName(a: Attachment, x: seq<Byte>): seq<Byte> {
    FrameText(a.mediaType.Name())
        + (FrameText(a.sha256) + (FrameText(a.createdByIssuer) + (FrameText(a.createdBySubject)
    + (LengthWord(a.byteLength) + (SignedWord(a.createdAtMs) + x)))))
  }

  lemma {:induction false} RegroupAttachment(a: Attachment, x: seq<Byte>)
    ensures AttachmentBytes(a) + x == FrameText(a.attachmentId) + (FrameText(a.fileName) + AfterName(a, x))
  {
    var words := LengthWord(a.byteLength) + SignedWord(a.createdAtMs);
    Assoc3(LengthWord(a.byteLength), SignedWord(a.createdAtMs), x);
    Assoc3(FrameText(a.createdBySubject), words, x);
    var s5 := FrameText(a.createdBySubject) + words;
    Assoc3(FrameText(a.createdByIssuer), s5, x);
    var s4 := FrameText(a.createdByIssuer) + s5;
    Assoc3(FrameText(a.sha256), s4, x);
    var s3 := FrameText(a.sha256) + s4;
    Assoc3(FrameText(a.mediaType.Name()), s3, x);
    var s2 := FrameText(a.mediaType.Name()) + s3;
    Assoc3(FrameText(a.fileName), s2, x);
    Assoc3(FrameText(a.attachmentId), FrameText(a.fileName) + s2, x);
  }

  lemma {:induction false} MediaTypeNames(m: MediaType, n: MediaType)
    ensures |Utf8(m.Name())| < 0x100 && Addressable(m.Name())
    ensures m.Name() == n.Name() ==> m == n
  {
    Utf8LengthBounds(m.Name());
    assert m.Name()[6] == n.Name()[6] ==> m == n;
  }

  lemma {:induction false} AttachmentBytesArePrefixFree(a: Attachment, x: seq<Byte>, b: Attachment, y: seq<Byte>)
    requires AddressableAttachment(a) && AddressableAttachment(b)
    requires AttachmentBytes(a) + x == AttachmentBytes(b) + y
    ensures Unfiled(a) == Unfiled(b) && x == y
  {
    RegroupAttachment(a, x);
    RegroupAttachment(b, y);
    FrameTextIsPrefixFree(a.attachmentId, FrameText(a.fileName) + AfterName(a, x),
                          b.attachmentId, FrameText(b.fileName) + AfterName(b, y));
    FrameTextIsPrefixFree(a.fileName, AfterName(a, x), b.fileName, AfterName(b, y));
    AfterNameIsPrefixFree(a, x, b, y);
  }

  lemma {:induction false} AfterNameIsPrefixFree(a: Attachment, x: seq<Byte>, b: Attachment, y: seq<Byte>)
    requires AddressableAttachment(a) && AddressableAttachment(b) && AfterName(a, x) == AfterName(b, y)
    ensures a.mediaType == b.mediaType && a.sha256 == b.sha256
    ensures a.createdByIssuer == b.createdByIssuer && a.createdBySubject == b.createdBySubject
    ensures a.byteLength == b.byteLength && a.createdAtMs == b.createdAtMs && x == y
  {
    MediaTypeNames(a.mediaType, b.mediaType);
    MediaTypeNames(b.mediaType, a.mediaType);
    var words := LengthWord(a.byteLength) + (SignedWord(a.createdAtMs) + x);
    var words' := LengthWord(b.byteLength) + (SignedWord(b.createdAtMs) + y);
    var subject, subject' := FrameText(a.createdBySubject) + words, FrameText(b.createdBySubject) + words';
    var issuer, issuer' := FrameText(a.createdByIssuer) + subject, FrameText(b.createdByIssuer) + subject';
    FrameTextIsPrefixFree(a.mediaType.Name(), FrameText(a.sha256) + issuer, b.mediaType.Name(),
                          FrameText(b.sha256) + issuer');
    FrameTextIsPrefixFree(a.sha256, issuer, b.sha256, issuer');
    FrameTextIsPrefixFree(a.createdByIssuer, subject, b.createdByIssuer, subject');
    FrameTextIsPrefixFree(a.createdBySubject, words, b.createdBySubject, words');
    EqualSplits(LengthWord(a.byteLength), SignedWord(a.createdAtMs) + x, LengthWord(b.byteLength),
                SignedWord(b.createdAtMs) + y);
    EqualSplits(SignedWord(a.createdAtMs), x, SignedWord(b.createdAtMs), y);
    WordsInjective(a.byteLength, b.byteLength);
    var s := if a.createdAtMs < 0 then a.createdAtMs + U64_LIMIT else a.createdAtMs;
    var t := if b.createdAtMs < 0 then b.createdAtMs + U64_LIMIT else b.createdAtMs;
    WordsInjective(s, t);
  }

  // Without counts the kinds of records are still told apart: after two components an access list
  // entry continues with 1 or 2, an attachment with the zero that leads the length of its media type.
  lemma {:induction false} KindsDiffer(e: AclEntry, x: seq<Byte>, a: Attachment, y: seq<Byte>)
    requires AddressableAcl(e) && AddressableAttachment(a)
    ensures AclBytes(e) + x != AttachmentBytes(a) + y
  {
    ZeroLeadsAfterName(a, y);
    assert ([PermissionByte(e.permission)] + x)[0] != 0;
    if AclBytes(e) + x == AttachmentBytes(a) + y {
      RegroupAcl(e, x);
      RegroupAttachment(a, y);
      FrameTextIsPrefixFree(e.issuer, FrameText(e.subject) + ([PermissionByte(e.permission)] + x),
                            a.attachmentId, FrameText(a.fileName) + AfterName(a, y));
      FrameTextIsPrefixFree(e.subject, [PermissionByte(e.permission)] + x, a.fileName, AfterName(a, y));
    }
  }

  lemma {:induction false} ZeroLeadsAfterName(a: Attachment, x: seq<Byte>)
    ensures AfterName(a, x) != [] && AfterName(a, x)[0] == 0
  {
    MediaTypeNames(a.mediaType, a.mediaType);
    BigEndianOfSmall(|Utf8(a.mediaType.Name())|, 8);
    assert AfterName(a, x)[0] == LengthWord(|Utf8(a.mediaType.Name())|)[0];
  }

  lemma {:induction false} RecordsAreNonempty(acl: seq<AclEntry>, attachments: seq<Attachment>)
    ensures Records(acl, attachments) == [] <==> acl == [] && attachments == []
  {
    if acl != [] {
      assert |FrameText(acl[0].issuer)| >= 8;
    } else if attachments != [] {
      assert |FrameText(attachments[0].attachmentId)| >= 8;
    }
  }

  lemma {:induction false} AttachmentsDecode(attachments: seq<Attachment>, attachments': seq<Attachment>)
    requires AddressableRecords([], attachments) && AddressableRecords([], attachments')
    requires Records([], attachments) == Records([], attachments')
    ensures Map(Unfiled, attachments) == Map(Unfiled, attachments')
  {
    RecordsAreNonempty([], attachments);
    RecordsAreNonempty([], attachments');
    if attachments != [] {
      AttachmentBytesArePrefixFree(attachments[0], Records([], attachments[1..]), attachments'[0],
                                   Records([], attachments'[1..]));
      AttachmentsDecode(attachments[1..], attachments'[1..]);
    }
  }

  // Two equal record streams begin with records of the same kind.
  lemma {:induction false} KindsAgree(acl: seq<AclEntry>, attachments: seq<Attachment>, acl': seq<AclEntry>,
                                      attachments': seq<Attachment>)
    requires AddressableRecords(acl, attachments) && AddressableRecords(acl', attachments')
    requires Records(acl, attachments) == Records(acl', attachments')
    ensures acl == [] <==> acl' == []
  {
    RecordsAreNonempty(acl, attachments);
    RecordsAreNonempty(acl', attachments');
    if acl != [] && acl' == [] && attachments' != [] {
      KindsDiffer(acl[0], Records(acl[1..], attachments), attachments'[0], Records([], attachments'[1..]));
    }
    if acl == [] && acl' != [] && attachments != [] {
      KindsDiffer(acl'[0], Records(acl'[1..], attachments'), attachments[0], Records([], attachments[1..]));
    }
  }

  // The records are uniquely decodable.
  lemma {:induction false} RecordsDecode(acl: seq<AclEntry>, attachments: seq<Attachment>,
                                         acl': seq<AclEntry>, attachments': seq<Attachment>)
    requires AddressableRecords(acl, attachments) && AddressableRecords(acl', attachments')
    requires Records(acl, attachments) == Records(acl', attachments')
    ensures acl == acl' && Map(Unfiled, attachments) == Map(Unfiled, attachments')
    decreases acl
  {
    KindsAgree(acl, attachments, acl', attachments');
    if acl == [] {
      AttachmentsDecode(attachments, attachments');
    } else {
      AclBytesArePrefixFree(acl[0], Records(acl[1..], attachments), acl'[0], Records(acl'[1..], attachments'));
      RecordsDecode(acl[1..], attachments, acl'[1..], attachments');
      assert acl == [acl[0]] + acl[1..] && acl' == [acl'[0]] + acl'[1..];
    }
  }

  // ---------------------------------------------------------------- the stream

  function AclKey(e: AclEntry): Key {
    [Points(e.issuer), Points(e.subject), [PermissionByte(e.permission)]]
  }

  function AttachmentKey(a: Attachment): Key {
    [Points(a.attachmentId)]
  }

  datatype State = State(ownerIssuer: string, ownerSubject: string, source: seq<Byte>,
                         acl: seq<AclEntry>, attachments: seq<Attachment>)

  function Stream(s: State): seq<Byte> {
    FrameText(s.ownerIssuer) + (FrameText(s.ownerSubject) + (Frame(s.source)
    + Records(Sort(s.acl, AclKey), Sort(s.attachments, AttachmentKey))))
  }

  // Feeds the hasher component by component; sha256 stands for the digest function.
  method NoteStateSha256(s: State, sha256: seq<Byte> -> string) returns (digest: string)
    ensures digest == sha256(Stream(s))
  {
    var hasher := FrameText(s.ownerIssuer);
    hasher := hasher + FrameText(s.ownerSubject);
    hasher := hasher + Frame(s.source);
    var entries := Sort(s.acl, AclKey);
    var attachments := Sort(s.attachments, AttachmentKey);
    Assoc4(FrameText(s.ownerIssuer), FrameText(s.ownerSubject), Frame(s.source), Records(entries, attachments));
    var records := FeedRecords(entries, attachments);
    hasher := hasher + records;
    digest := sha256(hasher);
  }

  method FeedRecords(entries: seq<AclEntry>, attachments: seq<Attachment>) returns (hasher: seq<Byte>)
    ensures hasher == Records(entries, attachments)
  {
    hasher := [];
    for i := 0 to |entries|
      invariant Records(entries, attachments) == hasher + Records(entries[i..], attachments)
    {
      var entry := entries[i];
      assert entries[i..][1..] == entries[i + 1..];
      Assoc3(hasher, AclBytes(entry), Records(entries[i + 1..], attachments));
      hasher := hasher + (FrameText(entry.issuer) + (FrameText(entry.subject) + [PermissionByte(entry.permission)]));
    }
    assert entries[|entries|..] == [];
    assert attachments[0..] == attachments;
    for i := 0 to |attachments|
      invariant Records(entries, attachments) == hasher + Records([], attachments[i..])
    {
      assert attachments[i..][1..] == attachments[i + 1..];
      Assoc3(hasher, AttachmentBytes(attachments[i]), Records([], attachments[i + 1..]));
      hasher := hasher + AttachmentBytes(attachments[i]);
    }
  }

  ghost predicate AddressableState(s: State) {
    && Addressable(s.ownerIssuer) && Addressable(s.ownerSubject) && |s.source| < U64_LIMIT
    && AddressableRecords(s.acl, s.attachments)
  }

  // The same state, up to the order of the lists and the paths of the attachment files.
  ghost predicate SameState(s: State, t: State) {
    && s.ownerIssuer == t.ownerIssuer && s.ownerSubject == t.ownerSubject && s.source == t.source
    && multiset(s.acl) == multiset(t.acl)
    && multiset(Map(Unfiled, s.attachments)) == multiset(Map(Unfiled, t.attachments))
  }

  lemma {:induction false} AclKeysIdentify(acl: seq<AclEntry>)
    ensures KeysIdentify(acl, AclKey)
  {
    forall x, y | x in acl && y in acl && AclKey(x) == AclKey(y)
      ensures x == y
    {
      assert AclKey(x)[0] == AclKey(y)[0] && AclKey(x)[1] == AclKey(y)[1] && AclKey(x)[2] == AclKey(y)[2];
      PointsInjective(x.issuer, y.issuer);
      PointsInjective(x.subject, y.subject);
      assert AclKey(x)[2][0] == AclKey(y)[2][0];
    }
  }

  lemma {:induction false} SortUnfiled(attachments: seq<Attachment>)
    ensures Map(Unfiled, Sort(attachments, AttachmentKey)) == Sort(Map(Unfiled, attachments), AttachmentKey)
  {
    SortMaps(Unfiled, attachments, AttachmentKey, AttachmentKey);
  }

  lemma {:induction false} SortedRecordsAreAddressable(acl: seq<AclEntry>, attachments: seq<Attachment>)
    requires AddressableRecords(acl, attachments)
    ensures AddressableRecords(Sort(acl, AclKey), Sort(attachments, AttachmentKey))
  {
    SortMembers(acl, AclKey);
    SortMembers(attachments, AttachmentKey);
    forall i | 0 <= i < |Sort(acl, AclKey)|
      ensures AddressableAcl(Sort(acl, AclKey)[i])
    {
      assert Sort(acl, AclKey)[i] in acl;
    }
    forall i | 0 <= i < |Sort(attachments, AttachmentKey)|
      ensures AddressableAttachment(Sort(attachments, AttachmentKey)[i])
    {
      assert Sort(attachments, AttachmentKey)[i] in attachments;
    }
  }

  // Equal streams come from equal states.
  lemma {:induction false} StreamDeterminesState(s: State, t: State)
    requires AddressableState(s) && AddressableState(t) && Stream(s) == Stream(t)
    ensures SameState(s, t)
    ensures Sort(s.acl, AclKey) == Sort(t.acl, AclKey)
    ensures Sort(Map(Unfiled, s.attachments), AttachmentKey) == Sort(Map(Unfiled, t.attachments), AttachmentKey)
  {
    var acl, acl' := Sort(s.acl, AclKey), Sort(t.acl, AclKey);
    var attachments, attachments' := Sort(s.attachments, AttachmentKey), Sort(t.attachments, AttachmentKey);
    var records, records' := Records(acl, attachments), Records(acl', attachments');
    FrameTextIsPrefixFree(s.ownerIssuer, FrameText(s.ownerSubject) + (Frame(s.source) + records),
                          t.ownerIssuer, FrameText(t.ownerSubject) + (Frame(t.source) + records'));
    FrameTextIsPrefixFree(s.ownerSubject, Frame(s.source) + records, t.ownerSubject, Frame(t.source) + records');
    FrameIsPrefixFree(s.source, records, t.source, records');
    SortedRecordsAreAddressable(s.acl, s.attachments);
    SortedRecordsAreAddressable(t.acl, t.attachments);
    RecordsDecode(acl, attachments, acl', attachments');
    SortPermutes(s.acl, AclKey);
    SortPermutes(t.acl, AclKey);
    SortUnfiled(s.attachments);
    SortUnfiled(t.attachments);
    SortPermutes(Map(Unfiled, s.attachments), AttachmentKey);
    SortPermutes(Map(Unfiled, t.attachments), AttachmentKey);
  }

  lemma {:induction false} RecordsIgnoreFiles(acl: seq<AclEntry>, attachments: seq<Attachment>)
    ensures Records(acl, attachments) == Records(acl, Map(Unfiled, attachments))
    decreases |acl| + |attachments|
  {
    if acl != [] {
      RecordsIgnoreFiles(acl[1..], attachments);
    } else if attachments != [] {
      RecordsIgnoreFiles([], attachments[1..]);
      assert Map(Unfiled, attachments)[1..] == Map(Unfiled, attachments[1..]);
    }
  }

  // Attachment IDs are unique within a note.
  ghost predicate DistinctAttachments(s: State) {
    UniqueKeys(s.attachments, AttachmentKey)
  }

  // The hash input changes exactly when the state changes: it is the same for two states that differ
  // only in the order of their lists and in file paths, and for no others.
  lemma {:induction false} SameStreamIffSameState(s: State, t: State)
    requires AddressableState(s) && AddressableState(t) && DistinctAttachments(s)
    ensures Stream(s) == Stream(t) <==> SameState(s, t)
  {
    if SameState(s, t) {
      AclKeysIdentify(s.acl);
      SortOfPermutation(s.acl, t.acl, AclKey);
      UnfiledKeysIdentify(s.attachments);
      SortOfPermutation(Map(Unfiled, s.attachments), Map(Unfiled, t.attachments), AttachmentKey);
      SortUnfiled(s.attachments);
      SortUnfiled(t.attachments);
      RecordsIgnoreFiles(Sort(s.acl, AclKey), Sort(s.attachments, AttachmentKey));
      RecordsIgnoreFiles(Sort(t.acl, AclKey), Sort(t.attachments, AttachmentKey));
    }
    if Stream(s) == Stream(t) {
      StreamDeterminesState(s, t);
    }
  }

  lemma {:induction false} UnfiledKeysIdentify(attachments: seq<Attachment>)
    requires UniqueKeys(attachments, AttachmentKey)
    ensures KeysIdentify(Map(Unfiled, attachments), AttachmentKey)
  {
    var m := Map(Unfiled, attachments);
    forall x, y | x in m && y in m && AttachmentKey(x) == AttachmentKey(y)
      ensures x == y
    {
      var i := MapIndex(Unfiled, attachments, x);
      var j := MapIndex(Unfiled, attachments, y);
      assert AttachmentKey(attachments[i]) == AttachmentKey(attachments[j]);
    }
  }
}
