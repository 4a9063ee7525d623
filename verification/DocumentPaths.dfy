// The paths of exported files: `safe_path_component`, `named_or_unnamed`, `owner_directory` and
// `note_file_name` (crates/marginalis-archive/src/documents.rs).
module DocumentPaths {
  import opened Sequences
  import opened Unicode
  import opened ArchiveContents

  const MAX_TITLE_CHARACTERS_IN_FILE_NAME := 40

  // The longest file name, in bytes, of many file systems.
  const FILE_NAME_BYTES := 255

  predicate IsReplaced(c: char) {
    IsControl(c) || c in "/\\:*?\"<>|\0" || IsWhitespace(c)
  }

  function Replace(value: string): (r: string)
    ensures |r| == |value|
  {
    seq(|value|, i requires 0 <= i < |value| => if IsReplaced(value[i]) then '-' else value[i])
  }

  predicate EndsWithDash(text: string) {
    text != "" && text[|text| - 1] == '-'
  }

  // Runs of dashes become one dash.
  function Collapse(text: string): string {
    if text == "" then ""
    else
      var before, last := Collapse(text[..|text| - 1]), text[|text| - 1];
      if last == '-' && EndsWithDash(before) then before else before + [last]
  }

  function TrimStart(text: string, chars: string): string {
    if text != "" && text[0] in chars then TrimStart(text[1..], chars) else text
  }

  function TrimEnd(text: string, chars: string): string {
    if text != "" && text[|text| - 1] in chars then TrimEnd(text[..|text| - 1], chars) else text
  }

  function TrimMatches(text: string, chars: string): string {
    TrimEnd(TrimStart(text, chars), chars)
  }

  function Safe(value: string): string {
    TrimMatches(Collapse(Replace(value)), "-.")
  }

  method SafePathComponent(value: string) returns (component: string)
    ensures component == Safe(value)
  {
    var replaced := Replace(value);
    var collapsed := "";
    for i := 0 to |replaced|
      invariant collapsed == Collapse(replaced[..i])
    {
      assert replaced[..i + 1][..i] == replaced[..i];
      if replaced[i] == '-' && EndsWithDash(collapsed) {
        continue;
      }
      collapsed := collapsed + [replaced[i]];
    }
    assert replaced[..|replaced|] == replaced;
    component := TrimMatches(collapsed, "-.");
  }

  function NamedOrUnnamed(value: string): string {
    if Safe(value) == "" then "unnamed" else Safe(value)
  }

  // ---------------------------------------------------------------- what a safe component is

  predicate NoneReplaced(text: string) {
    forall i | 0 <= i < |text| :: !IsReplaced(text[i])
  }

  predicate NoDashRun(text: string) {
    forall i | 0 <= i < |text| - 1 :: !(text[i] == '-' && text[i + 1] == '-')
  }

  predicate Trimmed(text: string, chars: string) {
    text != "" ==> text[0] !in chars && text[|text| - 1] !in chars
  }

  predicate IsSafe(text: string) {
    NoneReplaced(text) && NoDashRun(text) && Trimmed(text, "-.")
  }

  lemma {:induction false} CollapseCollapses(text: string)
    requires NoneReplaced(text)
    ensures NoneReplaced(Collapse(text)) && NoDashRun(Collapse(text))
  {
    if text != "" {
      CollapseCollapses(text[..|text| - 1]);
    }
  }

  lemma {:induction false} CollapseKeeps(text: string)
    requires NoDashRun(text)
    ensures Collapse(text) == text
  {
    if text != "" {
      CollapseKeeps(text[..|text| - 1]);
      assert text == text[..|text| - 1] + [text[|text| - 1]];
    }
  }

  // Trimming leaves a slice with nothing to trim at its ends.
  lemma {:induction false} TrimStartSlices(text: string, chars: string) returns (i: nat)
    ensures i <= |text| && TrimStart(text, chars) == text[i..]
    ensures i < |text| ==> text[i] !in chars
  {
    i := 0;
    if text != "" && text[0] in chars {
      var j := TrimStartSlices(text[1..], chars);
      assert text[1..][j..] == text[j + 1..];
      i := j + 1;
    }
  }

  lemma {:induction false} TrimEndSlices(text: string, chars: string) returns (j: nat)
    ensures j <= |text| && TrimEnd(text, chars) == text[..j]
    ensures j > 0 ==> text[j - 1] !in chars
    ensures text != "" && text[0] !in chars ==> j > 0
  {
    j := |text|;
    if text != "" && text[|text| - 1] in chars {
      j := TrimEndSlices(text[..|text| - 1], chars);
      assert text[..|text| - 1][..j] == text[..j];
    }
  }

  lemma {:induction false} TrimSlices(text: string, chars: string) returns (i: nat, j: nat)
    ensures i <= j <= |text| && TrimMatches(text, chars) == text[i..j]
    ensures Trimmed(TrimMatches(text, chars), chars)
  {
    i := TrimStartSlices(text, chars);
    var k := TrimEndSlices(text[i..], chars);
    j := i + k;
    assert text[i..][..k] == text[i..j];
  }

  lemma {:induction false} TrimKeeps(text: string, chars: string)
    requires Trimmed(text, chars)
    ensures TrimMatches(text, chars) == text
  {
  }

  lemma {:induction false} ReplaceReplaces(value: string)
    ensures NoneReplaced(Replace(value))
    ensures NoneReplaced(value) ==> Replace(value) == value
  {
  }

  // The result is free of separators, control characters, white space, runs of dashes, and of dots
  // and dashes at its ends.
  lemma {:induction false} SafeIsSafe(value: string)
    ensures IsSafe(Safe(value))
  {
    ReplaceReplaces(value);
    CollapseCollapses(Replace(value));
    var i, j := TrimSlices(Collapse(Replace(value)), "-.");
  }

  // Exactly the safe texts are left alone.
  lemma {:induction false} SafeFixes(value: string)
    ensures Safe(value) == value <==> IsSafe(value)
  {
    SafeIsSafe(value);
    if IsSafe(value) {
      ReplaceReplaces(value);
      CollapseKeeps(value);
      TrimKeeps(value, "-.");
    }
  }

  lemma {:induction false} SafeIdempotent(value: string)
    ensures Safe(Safe(value)) == Safe(value)
    ensures NamedOrUnnamed(NamedOrUnnamed(value)) == NamedOrUnnamed(value)
  {
    SafeIsSafe(value);
    SafeFixes(Safe(value));
    UnnamedIsSafe();
  }

  lemma {:induction false} UnnamedIsSafe()
    ensures Safe("unnamed") == "unnamed"
  {
    var text := "unnamed";
    assert forall i | 0 <= i < |text| :: 'a' <= text[i] <= 'z';
    assert forall c: char | 'a' <= c <= 'z' :: !IsReplaced(c);
    SafeFixes(text);
  }

  // ---------------------------------------------------------------- components of paths

  // One component of a path that names an entry of its directory.
  predicate IsComponent(text: string) {
    text != "" && text != "." && text != ".." && '/' !in text
  }

  function Components(path: string): (components: seq<string>)
    ensures components != []
  {
    if path == "" then [""]
    else
      var rest := Components(path[1..]);
      if path[0] == '/' then [""] + rest else [[path[0]] + rest[0]] + rest[1..]
  }

  // Joining with a slash adds a component.
  lemma {:induction false} ComponentsOfJoin(first: string, rest: string)
    requires '/' !in first
    ensures Components(first + "/" + rest) == [first] + Components(rest)
  {
    var path := first + "/" + rest;
    if first == "" {
      assert path[1..] == rest;
    } else {
      assert path[1..] == first[1..] + "/" + rest;
      ComponentsOfJoin(first[1..], rest);
      assert first == [first[0]] + first[1..];
      assert [first[1..]] + Components(rest) == Components(path[1..]);
    }
  }

  lemma {:induction false} ComponentsOfName(name: string)
    requires '/' !in name
    ensures Components(name) == [name]
  {
    if name != "" {
      ComponentsOfName(name[1..]);
      assert name == [name[0]] + name[1..];
    }
  }

  // An ID as it is printed: 32 lower-case hexadecimal digits in five groups.
  predicate IsPrintedId(id: string) {
    && |id| == 36
    && forall i | 0 <= i < 36 ::
         if i == 8 || i == 13 || i == 18 || i == 23 then id[i] == '-' else '0' <= id[i] <= '9' || 'a' <= id[i] <= 'f'
  }

  function StripPrefixes(text: string, prefix: string): string
    requires prefix != ""
  {
    if prefix <= text then StripPrefixes(text[|prefix|..], prefix) else text
  }

  function IssuerDirectory(issuer: string): string {
    NamedOrUnnamed(StripPrefixes(StripPrefixes(issuer, "https://"), "http://"))
  }

  function OwnerDirectory(issuer: string, subject: string): string {
    IssuerDirectory(issuer) + "/" + NamedOrUnnamed(subject)
  }

  function TitleInFileName(title: string): string {
    var safe := Safe(title);
    TrimMatches(if |safe| <= MAX_TITLE_CHARACTERS_IN_FILE_NAME then safe else safe[..MAX_TITLE_CHARACTERS_IN_FILE_NAME],
                "-. ")
  }

  function NoteFileName(title: string, noteId: string): string {
    if TitleInFileName(title) == "" then noteId + ".adoc" else TitleInFileName(title) + "-" + noteId + ".adoc"
  }

  function AttachmentFileName(attachmentId: string, fileName: string): string {
    attachmentId + "-" + NamedOrUnnamed(fileName)
  }

  function NotePath(directory: string, title: string, noteId: string): string {
    directory + "/notes/" + NoteFileName(title, noteId)
  }

  function AttachmentPath(directory: string, attachmentId: string, fileName: string): string {
    directory + "/attachments/" + AttachmentFileName(attachmentId, fileName)
  }

  function BibliographyPath(directory: string): string {
    directory + "/bibliography.json"
  }

  lemma {:induction false} NamedIsComponent(value: string)
    ensures IsComponent(NamedOrUnnamed(value))
  {
    SafeIsSafe(value);
    SafeHasNoSlash(value);
    var safe := Safe(value);
    assert safe != "" ==> safe[0] != '.';
  }

  lemma {:induction false} SafeHasNoSlash(value: string)
    ensures '/' !in Safe(value)
  {
    SafeIsSafe(value);
    assert IsReplaced('/');
  }

  lemma {:induction false} TitleHasNoSlash(title: string)
    ensures '/' !in TitleInFileName(title)
  {
    SafeHasNoSlash(title);
    var safe := Safe(title);
    var cut := if |safe| <= MAX_TITLE_CHARACTERS_IN_FILE_NAME then safe else safe[..MAX_TITLE_CHARACTERS_IN_FILE_NAME];
    var i, j := TrimSlices(cut, "-. ");
    forall c | c in cut[i..j]
      ensures c in safe
    {
    }
  }

  lemma {:induction false} NoteFileNameIsComponent(title: string, noteId: string)
    requires IsPrintedId(noteId)
    ensures IsComponent(NoteFileName(title, noteId))
  {
    TitleHasNoSlash(title);
    assert '/' !in noteId;
    assert |NoteFileName(title, noteId)| > 2;
  }

  lemma {:induction false} AttachmentFileNameIsComponent(attachmentId: string, fileName: string)
    requires IsPrintedId(attachmentId)
    ensures IsComponent(AttachmentFileName(attachmentId, fileName))
  {
    NamedIsComponent(fileName);
    assert '/' !in attachmentId;
    assert |AttachmentFileName(attachmentId, fileName)| > 2;
  }

  // ---------------------------------------------------------------- every exported path

  predicate AreComponents(components: seq<string>) {
    forall i | 0 <= i < |components| :: IsComponent(components[i])
  }

  predicate AllComponents(path: string) {
    AreComponents(Components(path))
  }

  lemma {:induction false} OwnerComponents(issuer: string, subject: string, rest: string)
    ensures Components(OwnerDirectory(issuer, subject) + "/" + rest)
            == [IssuerDirectory(issuer), NamedOrUnnamed(subject)] + Components(rest)
    ensures IsComponent(IssuerDirectory(issuer)) && IsComponent(NamedOrUnnamed(subject))
  {
    var first, second := IssuerDirectory(issuer), NamedOrUnnamed(subject);
    NamedIsComponent(StripPrefixes(StripPrefixes(issuer, "https://"), "http://"));
    NamedIsComponent(subject);
    Assoc3(first, "/", second);
    Assoc4(first + "/", second, "/", rest);
    Assoc3(second, "/", rest);
    ComponentsOfJoin(first, second + "/" + rest);
    ComponentsOfJoin(second, rest);
  }

  // A file in a folder of an owner; `inside` is the folder between slashes.
  lemma {:induction false} FileComponents(issuer: string, subject: string, folder: string, inside: string, name: string)
    requires inside == "/" + folder + "/" && IsComponent(folder) && IsComponent(name)
    ensures Components(OwnerDirectory(issuer, subject) + inside + name)
            == [IssuerDirectory(issuer), NamedOrUnnamed(subject), folder, name]
    ensures AllComponents(OwnerDirectory(issuer, subject) + inside + name)
  {
    var directory := OwnerDirectory(issuer, subject);
    OwnerComponents(issuer, subject, folder + "/" + name);
    ComponentsOfJoin(folder, name);
    ComponentsOfName(name);
    Assoc4("/", folder, "/", name);
    Assoc3(directory, inside, name);
    Assoc3(folder, "/", name);
    Assoc3(directory, "/", folder + "/" + name);
    FourAreComponents(IssuerDirectory(issuer), NamedOrUnnamed(subject), folder, name);
  }

  lemma {:induction false} FourAreComponents(a: string, b: string, c: string, d: string)
    requires IsComponent(a) && IsComponent(b) && IsComponent(c) && IsComponent(d)
    ensures [a, b] + ([c] + [d]) == [a, b, c, d] && AreComponents([a, b, c, d])
  {
  }

  lemma {:induction false} NotePathComponents(issuer: string, subject: string, title: string, noteId: string)
    requires IsPrintedId(noteId)
    ensures Components(NotePath(OwnerDirectory(issuer, subject), title, noteId))
            == [IssuerDirectory(issuer), NamedOrUnnamed(subject), "notes", NoteFileName(title, noteId)]
    ensures AllComponents(NotePath(OwnerDirectory(issuer, subject), title, noteId))
  {
    NoteFileNameIsComponent(title, noteId);
    FileComponents(issuer, subject, "notes", "/notes/", NoteFileName(title, noteId));
  }

  lemma {:induction false} AttachmentPathComponents(issuer: string, subject: string, attachmentId: string,
                                                    fileName: string)
    requires IsPrintedId(attachmentId)
    ensures Components(AttachmentPath(OwnerDirectory(issuer, subject), attachmentId, fileName))
            == [IssuerDirectory(issuer), NamedOrUnnamed(subject), "attachments",
                AttachmentFileName(attachmentId, fileName)]
    ensures AllComponents(AttachmentPath(OwnerDirectory(issuer, subject), attachmentId, fileName))
  {
    AttachmentFileNameIsComponent(attachmentId, fileName);
    FileComponents(issuer, subject, "attachments", "/attachments/", AttachmentFileName(attachmentId, fileName));
  }

  lemma {:induction false} BibliographyPathComponents(issuer: string, subject: string)
    ensures Components(BibliographyPath(OwnerDirectory(issuer, subject)))
            == [IssuerDirectory(issuer), NamedOrUnnamed(subject), "bibliography.json"]
    ensures AllComponents(BibliographyPath(OwnerDirectory(issuer, subject)))
  {
    OwnFileComponents(issuer, subject, "bibliography.json", "/bibliography.json");
  }

  lemma {:induction false} OwnFileComponents(issuer: string, subject: string, name: string, inside: string)
    requires inside == "/" + name && IsComponent(name)
    ensures Components(OwnerDirectory(issuer, subject) + inside)
            == [IssuerDirectory(issuer), NamedOrUnnamed(subject), name]
    ensures AllComponents(OwnerDirectory(issuer, subject) + inside)
  {
    OwnerComponents(issuer, subject, name);
    ComponentsOfName(name);
    Assoc3(OwnerDirectory(issuer, subject), "/", name);
    assert [IssuerDirectory(issuer), NamedOrUnnamed(subject)] + [name]
        == [IssuerDirectory(issuer), NamedOrUnnamed(subject), name];
  }

  // ---------------------------------------------------------------- distinct paths

  // Notes with different IDs never share a path, whatever their titles and owners are.
  lemma {:induction false} NotePathGivesId(directory: string, title: string, noteId: string, directory': string,
                                           title': string, noteId': string)
    requires IsPrintedId(noteId) && IsPrintedId(noteId')
    requires NotePath(directory, title, noteId) == NotePath(directory', title', noteId')
    ensures noteId == noteId'
  {
    NotePathEnds(directory, title, noteId);
    NotePathEnds(directory', title', noteId');
  }

  lemma {:induction false} NotePathEnds(directory: string, title: string, noteId: string)
    requires |noteId| == 36
    ensures var path := NotePath(directory, title, noteId); |path| >= 41 && path[|path| - 41..|path| - 5] == noteId
  {
    var named := TitleInFileName(title);
    var before := if named == "" then "" else named + "-";
    if named != "" {
      Assoc3(named + "-", noteId, ".adoc");
    }
    Assoc3(directory + "/notes/", before, noteId + ".adoc");
    EndOfConcatenation(directory + "/notes/" + before, noteId);
  }

  lemma {:induction false} EndOfConcatenation(before: string, noteId: string)
    requires |noteId| == 36
    ensures var path := before + (noteId + ".adoc"); |path| >= 41 && path[|path| - 41..|path| - 5] == noteId
  {
  }

  // Attachments with different IDs never share a path, whatever their names and owners are.
  lemma {:induction false} AttachmentPathGivesId(issuer: string, subject: string, id: string, fileName: string,
                                                 issuer': string, subject': string, id': string, fileName': string)
    requires IsPrintedId(id) && IsPrintedId(id')
    requires AttachmentPath(OwnerDirectory(issuer, subject), id, fileName)
             == AttachmentPath(OwnerDirectory(issuer', subject'), id', fileName')
    ensures id == id'
  {
    AttachmentPathComponents(issuer, subject, id, fileName);
    AttachmentPathComponents(issuer', subject', id', fileName');
    assert Components(AttachmentPath(OwnerDirectory(issuer, subject), id, fileName))[3]
           == AttachmentFileName(id, fileName);
    assert AttachmentFileName(id, fileName) == AttachmentFileName(id', fileName');
    assert AttachmentFileName(id, fileName)[..36] == id && AttachmentFileName(id', fileName')[..36] == id';
  }

  // Files of different kinds never share a path.
  lemma {:induction false} KindsHaveDifferentPaths(issuer: string, subject: string, title: string, noteId: string,
                                                   issuer': string, subject': string, attachmentId: string,
                                                   fileName: string, issuer'': string, subject'': string)
    requires IsPrintedId(noteId) && IsPrintedId(attachmentId)
    ensures NotePath(OwnerDirectory(issuer, subject), title, noteId)
            != AttachmentPath(OwnerDirectory(issuer', subject'), attachmentId, fileName)
    ensures NotePath(OwnerDirectory(issuer, subject), title, noteId)
            != BibliographyPath(OwnerDirectory(issuer'', subject''))
    ensures AttachmentPath(OwnerDirectory(issuer', subject'), attachmentId, fileName)
            != BibliographyPath(OwnerDirectory(issuer'', subject''))
  {
    NotePathComponents(issuer, subject, title, noteId);
    AttachmentPathComponents(issuer', subject', attachmentId, fileName);
    BibliographyPathComponents(issuer'', subject'');
    assert "notes" != "attachments";
  }

  // Owners share a directory exactly when both components agree.
  lemma {:induction false} OwnersShareDirectoryIff(issuer: string, subject: string, issuer': string, subject': string)
    ensures OwnerDirectory(issuer, subject) == OwnerDirectory(issuer', subject')
       <==> IssuerDirectory(issuer) == IssuerDirectory(issuer') && NamedOrUnnamed(subject) == NamedOrUnnamed(subject')
  {
    BibliographyPathComponents(issuer, subject);
    BibliographyPathComponents(issuer', subject');
    var directory, directory' := OwnerDirectory(issuer, subject), OwnerDirectory(issuer', subject');
    if directory == directory' {
      var components, components' := Components(BibliographyPath(directory)), Components(BibliographyPath(directory'));
      assert components[0] == IssuerDirectory(issuer) && components[1] == NamedOrUnnamed(subject);
      assert components'[0] == IssuerDirectory(issuer') && components'[1] == NamedOrUnnamed(subject');
    }
  }

  // Every subject that is empty or not safe shares its directory with another subject of the issuer.
  lemma {:induction false} UnsafeSubjectShares(issuer: string, subject: string)
    requires subject == "" || !IsSafe(subject)
    ensures subject != NamedOrUnnamed(subject)
    ensures OwnerDirectory(issuer, subject) == OwnerDirectory(issuer, NamedOrUnnamed(subject))
  {
    SafeFixes(subject);
    SafeFixes("unnamed");
    UnnamedIsSafe();
    SafeIdempotent(subject);
  }

  // An issuer shares its directories with the issuer that has another https scheme in front.
  lemma {:induction false} SchemeIsDropped(issuer: string, subject: string)
    ensures OwnerDirectory("https://" + issuer, subject) == OwnerDirectory(issuer, subject)
  {
    assert ("https://" + issuer)[|"https://"|..] == issuer;
  }

  // ---------------------------------------------------------------- lengths

  lemma {:induction false} Utf8OfConcatenation(a: string, b: string)
    ensures |Utf8(a + b)| == |Utf8(a)| + |Utf8(b)|
  {
    Utf8Splits(a, b);
  }

  // The file name of a note takes 202 bytes at most.
  lemma {:induction false} NoteFileNameFits(title: string, noteId: string)
    requires IsPrintedId(noteId)
    ensures |Utf8(NoteFileName(title, noteId))| <= 202 <= FILE_NAME_BYTES
  {
    var safe := Safe(title);
    var cut := if |safe| <= MAX_TITLE_CHARACTERS_IN_FILE_NAME then safe else safe[..MAX_TITLE_CHARACTERS_IN_FILE_NAME];
    var i, j := TrimSlices(cut, "-. ");
    var kept := TitleInFileName(title);
    Utf8LengthBounds(kept);
    var tail := "-" + noteId + ".adoc";
    IdTailLength(noteId);
    assert kept + "-" + noteId + ".adoc" == kept + tail;
    Utf8OfConcatenation(kept, tail);
  }

  lemma {:induction false} IdTailLength(noteId: string)
    requires IsPrintedId(noteId)
    ensures |Utf8(noteId + ".adoc")| == 41 && |Utf8("-" + noteId + ".adoc")| == 42
  {
    Utf8LengthBounds(noteId);
    Utf8LengthBounds(".adoc");
    Utf8LengthBounds("-");
    Utf8OfConcatenation(noteId, ".adoc");
    Utf8OfConcatenation("-", noteId);
    Utf8OfConcatenation("-" + noteId, ".adoc");
  }

  // The file name of an attachment fits exactly when its own name leaves room for the ID.
  lemma {:induction false} AttachmentFileNameFits(attachmentId: string, fileName: string)
    requires IsPrintedId(attachmentId)
    ensures |Utf8(AttachmentFileName(attachmentId, fileName))| <= FILE_NAME_BYTES
            <==> |Utf8(NamedOrUnnamed(fileName))| <= 218
  {
    Utf8LengthBounds(attachmentId + "-");
    Utf8OfConcatenation(attachmentId + "-", NamedOrUnnamed(fileName));
  }

  lemma {:induction false} Utf8OfThreeBytes(text: string)
    requires forall i | 0 <= i < |text| :: |Utf8Char(text[i])| == 3
    ensures |Utf8(text)| == 3 * |text|
  {
    if text != "" {
      Utf8OfThreeBytes(text[1..]);
    }
  }

  // Names that are valid and too long: 73 to 200 characters of three bytes.
  lemma {:induction false} ValidNameMayNotFit(attachmentId: string, character: char, length: nat)
    requires IsPrintedId(attachmentId) && 73 <= length <= MAX_FILE_NAME_CHARACTERS
    requires 0x800 <= character as int < 0x1_0000 && !IsWhitespace(character)
    ensures var fileName := seq(length, _ => character);
            ValidFileName(fileName) && |Utf8(AttachmentFileName(attachmentId, fileName))| > FILE_NAME_BYTES
  {
    var fileName := seq(length, _ => character);
    assert forall i | 0 <= i < |fileName| :: fileName[i] == character;
    SafeFixes(fileName);
    Utf8OfThreeBytes(fileName);
    AttachmentFileNameFits(attachmentId, fileName);
  }
}
