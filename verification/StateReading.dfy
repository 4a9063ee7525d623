// What the hasher of a note's state is fed, as a reader finds it who knows the format
// (`note_state_sha256` in crates/marginalis-archive/src/documents.rs).
module StateReading {
  import opened Options
  import opened Domain
  import opened Unicode
  import opened Sequences
  import opened Sorting
  import opened StateHash

  // ---------------------------------------------------------------- the reader

  // Most significant byte first.
  function Number(bytes: seq<Byte>): nat {
    if bytes == [] then 0 else 0x100 * Number(bytes[..|bytes| - 1]) + bytes[|bytes| - 1]
  }

  function ReadWord(bytes: seq<Byte>): (r: Option<(nat, seq<Byte>)>)
    ensures r.Some? ==> |r.value.1| < |bytes|
  {
    if |bytes| < 8 then None else Some((Number(bytes[..8]), bytes[8..]))
  }

  // A length and as many bytes.
  function ReadFrame(bytes: seq<Byte>): (r: Option<(seq<Byte>, seq<Byte>)>)
    ensures r.Some? ==> |r.value.1| < |bytes|
  {
    var word := ReadWord(bytes);
    if word.None? || word.value.0 > |word.value.1| then None
    else Some((word.value.1[..word.value.0], word.value.1[word.value.0..]))
  }

  // Two's complement.
  function Signed(n: nat): int {
    if n < 0x8000_0000_0000_0000 then n else n - 0x1_0000_0000_0000_0000
  }

  datatype Record =
    | Grant(issuer: seq<Byte>, subject: seq<Byte>, permission: Byte)
    | Attached(attachmentId: seq<Byte>, fileName: seq<Byte>, rest: Details)

  datatype Details = Details(mediaType: seq<Byte>, sha256: seq<Byte>, createdByIssuer: seq<Byte>,
                             createdBySubject: seq<Byte>, byteLength: nat, createdAtMs: int)

  function ReadDetails(bytes: seq<Byte>): (r: Option<(Details, seq<Byte>)>)
    ensures r.Some? ==> |r.value.1| < |bytes|
  {
    var mediaType := ReadFrame(bytes);
    if mediaType.None? then None
    else
      var sha256 := ReadFrame(mediaType.value.1);
      if sha256.None? then None
      else
        var issuer := ReadFrame(sha256.value.1);
        if issuer.None? then None
        else
          var subject := ReadFrame(issuer.value.1);
          if subject.None? then None
          else ReadNumbers(mediaType.value.0, sha256.value.0, issuer.value.0, subject.value.0, subject.value.1)
  }

  function ReadNumbers(mediaType: seq<Byte>, sha256: seq<Byte>, issuer: seq<Byte>, subject: seq<Byte>,
                       bytes: seq<Byte>): (r: Option<(Details, seq<Byte>)>)
    ensures r.Some? ==> |r.value.1| < |bytes|
  {
    var length := ReadWord(bytes);
    if length.None? then None
    else
      var createdAt := ReadWord(length.value.1);
      if createdAt.None? then None
      else
        Some((Details(mediaType, sha256, issuer, subject, length.value.0, Signed(createdAt.value.0)),
              createdAt.value.1))
  }

  // After two components, one or two is the permission of a grant; a zero leads the next length.
  function ReadRecord(bytes: seq<Byte>): (r: Option<(Record, seq<Byte>)>)
    ensures r.Some? ==> |r.value.1| < |bytes|
  {
    var first := ReadFrame(bytes);
    if first.None? then None
    else
      var second := ReadFrame(first.value.1);
      if second.None? || second.value.1 == [] then None
      else if second.value.1[0] != 0 then
        Some((Grant(first.value.0, second.value.0, second.value.1[0]), second.value.1[1..]))
      else
        var details := ReadDetails(second.value.1);
        if details.None? then None
        else Some((Attached(first.value.0, second.value.0, details.value.0), details.value.1))
  }

  function ReadRecords(bytes: seq<Byte>): Option<seq<Record>>
    decreases |bytes|
  {
    if bytes == [] then Some([])
    else
      var first := ReadRecord(bytes);
      if first.None? then None
      else
        var rest := ReadRecords(first.value.1);
        if rest.None? then None else Some([first.value.0] + rest.value)
  }

  datatype StateRead = StateRead(issuer: seq<Byte>, subject: seq<Byte>, source: seq<Byte>, records: seq<Record>)

  function ReadState(bytes: seq<Byte>): Option<StateRead> {
    var issuer := ReadFrame(bytes);
    if issuer.None? then None
    else
      var subject := ReadFrame(issuer.value.1);
      if subject.None? then None
      else
        var source := ReadFrame(subject.value.1);
        if source.None? then None
        else
          var records := ReadRecords(source.value.1);
          if records.None? then None
          else Some(StateRead(issuer.value.0, subject.value.0, source.value.0, records.value))
  }

  // ---------------------------------------------------------------- words and components

  lemma {:induction false} NumberOfBigEndian(n: nat, k: nat)
    requires n < Pow256(k)
    ensures Number(BigEndian(n, k)) == n
  {
    if k > 0 {
      NumberOfBigEndian(n / 0x100, k - 1);
      assert BigEndian(n, k)[..k - 1] == BigEndian(n / 0x100, k - 1);
    }
  }

  lemma {:induction false} ReadsWord(n: nat, rest: seq<Byte>)
    requires n < U64_LIMIT
    ensures ReadWord(BigEndian(n, 8) + rest) == Some((n, rest))
  {
    Pow256Of8();
    NumberOfBigEndian(n, 8);
    assert (BigEndian(n, 8) + rest)[..8] == BigEndian(n, 8);
  }

  // Eight bytes hold every length that they can; a greater one saturates.
  lemma {:induction false} LengthWordHolds(n: nat)
    ensures Number(LengthWord(n)) == if n < U64_LIMIT then n else 0xFFFF_FFFF_FFFF_FFFF
  {
    Pow256Of8();
    NumberOfBigEndian(if n < U64_LIMIT then n else U64_LIMIT - 1, 8);
  }

  lemma {:induction false} ReadsFrame(value: seq<Byte>, rest: seq<Byte>)
    requires |value| < U64_LIMIT
    ensures ReadFrame(Frame(value) + rest) == Some((value, rest))
  {
    Assoc3(LengthWord(|value|), value, rest);
    ReadsWord(|value|, value + rest);
  }

  // ---------------------------------------------------------------- records

  function GrantRead(e: AclEntry): Record {
    Grant(Utf8(e.issuer), Utf8(e.subject), if e.permission.Read? then 1 else 2)
  }

  function DetailsRead(a: Attachment): Details {
    Details(Utf8(a.mediaType.Name()), Utf8(a.sha256), Utf8(a.createdByIssuer), Utf8(a.createdBySubject), a.byteLength,
            a.createdAtMs)
  }

  function AttachmentRead(a: Attachment): Record {
    Attached(Utf8(a.attachmentId), Utf8(a.fileName), DetailsRead(a))
  }

  lemma {:induction false} ReadsGrant(e: AclEntry, rest: seq<Byte>)
    requires AddressableAcl(e)
    ensures ReadRecord(AclBytes(e) + rest) == Some((GrantRead(e), rest))
  {
    RegroupAcl(e, rest);
    var last := [PermissionByte(e.permission)] + rest;
    ReadsFrame(Utf8(e.issuer), FrameText(e.subject) + last);
    ReadsFrame(Utf8(e.subject), last);
    assert last[1..] == rest;
  }

  lemma {:induction false} ReadsDetails(a: Attachment, rest: seq<Byte>)
    requires AddressableAttachment(a)
    ensures ReadDetails(AfterName(a, rest)) == Some((DetailsRead(a), rest))
  {
    MediaTypeNames(a.mediaType, a.mediaType);
    var numbers := LengthWord(a.byteLength) + (SignedWord(a.createdAtMs) + rest);
    var subject := FrameText(a.createdBySubject) + numbers;
    var issuer := FrameText(a.createdByIssuer) + subject;
    ReadsFrame(Utf8(a.mediaType.Name()), FrameText(a.sha256) + issuer);
    ReadsFrame(Utf8(a.sha256), issuer);
    ReadsFrame(Utf8(a.createdByIssuer), subject);
    ReadsFrame(Utf8(a.createdBySubject), numbers);
    ReadsNumbers(a, rest);
  }

  lemma {:induction false} ReadsNumbers(a: Attachment, rest: seq<Byte>)
    requires AddressableAttachment(a)
    ensures ReadNumbers(Utf8(a.mediaType.Name()), Utf8(a.sha256), Utf8(a.createdByIssuer), Utf8(a.createdBySubject),
                        LengthWord(a.byteLength) + (SignedWord(a.createdAtMs) + rest))
            == Some((DetailsRead(a), rest))
  {
    ReadsWord(a.byteLength, SignedWord(a.createdAtMs) + rest);
    ReadsWord(if a.createdAtMs < 0 then a.createdAtMs + U64_LIMIT else a.createdAtMs, rest);
  }

  lemma {:induction false} ReadsAttachment(a: Attachment, rest: seq<Byte>)
    requires AddressableAttachment(a)
    ensures ReadRecord(AttachmentBytes(a) + rest) == Some((AttachmentRead(a), rest))
  {
    RegroupAttachment(a, rest);
    ReadsFrame(Utf8(a.attachmentId), FrameText(a.fileName) + AfterName(a, rest));
    ReadsFrame(Utf8(a.fileName), AfterName(a, rest));
    ZeroLeadsAfterName(a, rest);
    ReadsDetails(a, rest);
  }

  lemma {:induction false} ReadsOneMore(bytes: seq<Byte>, first: Record, rest: seq<Byte>, records: seq<Record>)
    requires ReadRecord(bytes) == Some((first, rest)) && ReadRecords(rest) == Some(records)
    ensures ReadRecords(bytes) == Some([first] + records)
  {
  }

  lemma {:induction false} ReadsFirstAttachment(attachments: seq<Attachment>, records: seq<Record>)
    requires attachments != [] && AddressableAttachment(attachments[0])
    requires ReadRecords(Records([], attachments[1..])) == Some(records)
    ensures ReadRecords(Records([], attachments)) == Some([AttachmentRead(attachments[0])] + records)
  {
    var rest := Records([], attachments[1..]);
    ReadsAttachment(attachments[0], rest);
    ReadsOneMore(AttachmentBytes(attachments[0]) + rest, AttachmentRead(attachments[0]), rest, records);
  }

  lemma {:induction false} ReadsAttachments(attachments: seq<Attachment>)
    requires AddressableRecords([], attachments)
    ensures ReadRecords(Records([], attachments)) == Some(Map(AttachmentRead, attachments))
  {
    if attachments != [] {
      ReadsAttachments(attachments[1..]);
      ReadsFirstAttachment(attachments, Map(AttachmentRead, attachments[1..]));
    }
  }

  lemma {:induction false} ReadsRecords(acl: seq<AclEntry>, attachments: seq<Attachment>)
    requires AddressableRecords(acl, attachments)
    ensures ReadRecords(Records(acl, attachments)) == Some(Map(GrantRead, acl) + Map(AttachmentRead, attachments))
    decreases |acl|
  {
    var last := Map(AttachmentRead, attachments);
    if acl == [] {
      ReadsAttachments(attachments);
      assert [] + last == last;
    } else {
      var rest := acl[1..];
      ReadsGrant(acl[0], Records(rest, attachments));
      ReadsRecords(rest, attachments);
      ReadsOneMore(Records(acl, attachments), GrantRead(acl[0]), Records(rest, attachments),
                   Map(GrantRead, rest) + last);
      Assoc3([GrantRead(acl[0])], Map(GrantRead, rest), last);
    }
  }

  // ---------------------------------------------------------------- the whole state

  // A reader finds the owner, the source, the grants in order and the attachments in order, and nothing else.
  lemma {:induction false} StreamReadsBack(s: State)
    requires AddressableState(s)
    ensures ReadState(Stream(s))
            == Some(StateRead(Utf8(s.ownerIssuer), Utf8(s.ownerSubject), s.source,
                              Map(GrantRead, Sort(s.acl, AclKey))
                              + Map(AttachmentRead, Sort(s.attachments, AttachmentKey))))
  {
    var acl, attachments := Sort(s.acl, AclKey), Sort(s.attachments, AttachmentKey);
    SortedRecordsAreAddressable(s.acl, s.attachments);
    var records := Records(acl, attachments);
    var source := Frame(s.source) + records;
    ReadsFrame(Utf8(s.ownerIssuer), FrameText(s.ownerSubject) + source);
    ReadsFrame(Utf8(s.ownerSubject), source);
    ReadsFrame(s.source, records);
    ReadsRecords(acl, attachments);
  }
}
