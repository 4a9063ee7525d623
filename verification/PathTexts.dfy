// The texts of exported paths: which characters of a title, a file name, an issuer or a subject are kept, and how the
// parts are put together (`safe_path_component`, `owner_directory` and `note_file_name` in
// crates/marginalis-archive/src/documents.rs).
module PathTexts {
  import opened Sequences
  import opened Unicode
  import opened DocumentPaths

  // ---------------------------------------------------------------- characters

  // What cannot stand in a name on some file system, and dashes.
  predicate IsSeparator(c: char) {
    || c == '-' || c == '/' || c == '\\' || c == ':' || c == '*' || c == '?' || c == '"' || c == '<' || c == '>'
    || c == '|' || IsControl(c) || IsWhitespace(c)
  }

  // The text with every run of separators made one dash, when a separator may stand just before it.
  function Squeezed(separates: char -> bool, text: string, afterSeparator: bool): string {
    if text == "" then ""
    else if separates(text[0]) then (if afterSeparator then "" else "-") + Squeezed(separates, text[1..], true)
    else [text[0]] + Squeezed(separates, text[1..], false)
  }

  lemma {:induction false} NulIsControl()
    ensures IsControl('\0')
  {
  }

  lemma {:induction false} ReplacedOrDash(c: char)
    ensures IsSeparator(c) <==> c == '-' || IsReplaced(c)
  {
    NulIsControl();
    var list := "/\\:*?\"<>|\0";
    assert c in list <==> || c == list[0] || c == list[1] || c == list[2] || c == list[3] || c == list[4]
                          || c == list[5] || c == list[6] || c == list[7] || c == list[8] || c == list[9];
  }

  lemma {:induction false} SqueezedAppends(separates: char -> bool, text: string, c: char, afterSeparator: bool)
    ensures var before := if text == "" then afterSeparator else separates(text[|text| - 1]);
            Squeezed(separates, text + [c], afterSeparator)
            == Squeezed(separates, text, afterSeparator)
               + (if !separates(c) then [c] else if before then "" else "-")
  {
    if text == "" {
      assert text + [c] == [c] && [c][1..] == "";
    } else {
      assert (text + [c])[1..] == text[1..] + [c];
      SqueezedAppends(separates, text[1..], c, separates(text[0]));
    }
  }

  // Replacing and collapsing squeezes the runs of separators.
  lemma {:induction false} CollapsedIsSqueezed(separates: char -> bool, text: string, replaced: string)
    requires separates('-') && |replaced| == |text|
    requires forall i | 0 <= i < |text| :: replaced[i] == if separates(text[i]) then '-' else text[i]
    ensures Collapse(replaced) == Squeezed(separates, text, false)
    ensures EndsWithDash(Squeezed(separates, text, false)) <==> text != "" && separates(text[|text| - 1])
  {
    if text != "" {
      var front, c := text[..|text| - 1], text[|text| - 1];
      assert text == front + [c];
      CollapsedIsSqueezed(separates, front, replaced[..|replaced| - 1]);
      SqueezedAppends(separates, front, c, false);
    }
  }

  lemma {:induction false} ComponentIsSqueezed(value: string)
    ensures Collapse(Replace(value)) == Squeezed(IsSeparator, value, false)
  {
    forall i | 0 <= i < |value|
      ensures Replace(value)[i] == if IsSeparator(value[i]) then '-' else value[i]
    {
      ReplacedOrDash(value[i]);
    }
    CollapsedIsSqueezed(IsSeparator, value, Replace(value));
  }

  predicate OnlyDashesAndDots(text: string) {
    forall i | 0 <= i < |text| :: text[i] == '-' || text[i] == '.'
  }

  predicate IsDashOrDot(c: char) {
    c == '-' || c == '.'
  }

  // The middle of a text, with dashes and dots around it.
  predicate IsMiddle(text: string, front: string, middle: string, back: string) {
    text == front + middle + back && OnlyDashesAndDots(front) && OnlyDashesAndDots(back)
  }

  lemma {:induction false} TrimmedIsMiddle(text: string)
    ensures exists front, back :: IsMiddle(text, front, TrimMatches(text, "-."), back)
  {
    var front := TrimmedStart(text, "-.");
    var middle := TrimStart(text, "-.");
    var back := TrimmedEnd(middle, "-.");
    InDashesAndDots(front);
    InDashesAndDots(back);
    Assoc3(front, TrimEnd(middle, "-."), back);
    assert IsMiddle(text, front, TrimMatches(text, "-."), back);
  }

  // A component is its text with every run of separators made one dash, without the dashes and dots at its ends.
  lemma {:induction false} SafeKeepsTheRest(value: string)
    ensures exists front, back :: IsMiddle(Squeezed(IsSeparator, value, false), front, Safe(value), back)
    ensures Safe(value) != "" ==> !IsDashOrDot(Safe(value)[0]) && !IsDashOrDot(Safe(value)[|Safe(value)| - 1])
  {
    ComponentIsSqueezed(value);
    TrimmedIsMiddle(Squeezed(IsSeparator, value, false));
    SafeIsSafe(value);
  }

  lemma {:induction false} InDashesAndDots(text: string)
    requires forall i | 0 <= i < |text| :: text[i] in "-."
    ensures OnlyDashesAndDots(text)
  {
  }

  lemma {:induction false} TrimmedStart(text: string, chars: string) returns (front: string)
    ensures text == front + TrimStart(text, chars)
    ensures forall i | 0 <= i < |front| :: front[i] in chars
  {
    front := "";
    if text != "" && text[0] in chars {
      var rest := TrimmedStart(text[1..], chars);
      front := [text[0]] + rest;
      assert text == [text[0]] + text[1..];
    }
  }

  lemma {:induction false} TrimmedEnd(text: string, chars: string) returns (back: string)
    ensures text == TrimEnd(text, chars) + back
    ensures forall i | 0 <= i < |back| :: back[i] in chars
  {
    back := "";
    if text != "" && text[|text| - 1] in chars {
      var rest := TrimmedEnd(text[..|text| - 1], chars);
      back := rest + [text[|text| - 1]];
      assert text == text[..|text| - 1] + [text[|text| - 1]];
    }
  }

  // Other characters stay: without separators and dots, a component reads like its text.
  function Significant(text: string): string {
    if text == "" then ""
    else (if IsSeparator(text[0]) || text[0] == '.' then "" else [text[0]]) + Significant(text[1..])
  }

  lemma {:induction false} SignificantSplits(a: string, b: string)
    ensures Significant(a + b) == Significant(a) + Significant(b)
  {
    if a == "" {
      assert a + b == b;
    } else {
      assert (a + b)[1..] == a[1..] + b;
      SignificantSplits(a[1..], b);
    }
  }

  lemma {:induction false} SqueezedIsSignificant(text: string, afterSeparator: bool)
    ensures Significant(Squeezed(IsSeparator, text, afterSeparator)) == Significant(text)
  {
    if text != "" {
      var rest := Squeezed(IsSeparator, text[1..], IsSeparator(text[0]));
      SqueezedIsSignificant(text[1..], IsSeparator(text[0]));
      if IsSeparator(text[0]) {
        assert "-"[1..] == "";
        SignificantSplits("-", rest);
        assert "" + rest == rest;
      } else {
        assert ([text[0]] + rest)[1..] == rest;
      }
    }
  }

  lemma {:induction false} DashesAndDotsAreInsignificant(text: string)
    requires OnlyDashesAndDots(text)
    ensures Significant(text) == ""
  {
    if text != "" {
      DashesAndDotsAreInsignificant(text[1..]);
    }
  }

  // No separator but single dashes is in a component, and all characters but separators and dots are, in order.
  lemma {:induction false} SafeCharacters(value: string)
    ensures forall c | c in Safe(value) && IsSeparator(c) :: c == '-'
    ensures Significant(Safe(value)) == Significant(value)
  {
    SafeIsSafe(value);
    forall c | c in Safe(value) && IsSeparator(c)
      ensures c == '-'
    {
      ReplacedOrDash(c);
    }
    SafeKeepsTheRest(value);
    SqueezedIsSignificant(value, false);
    var front, back :| IsMiddle(Squeezed(IsSeparator, value, false), front, Safe(value), back);
    SignificantSplits(front + Safe(value), back);
    SignificantSplits(front, Safe(value));
    DashesAndDotsAreInsignificant(front);
    DashesAndDotsAreInsignificant(back);
  }

  // ---------------------------------------------------------------- names

  // A name stands for itself, unless nothing of it is left.
  lemma {:induction false} NameOrUnnamed(value: string)
    ensures NamedOrUnnamed(value) == if Safe(value) != "" then Safe(value) else "unnamed"
    ensures NamedOrUnnamed(value) == value <==> value != "" && IsSafe(value)
  {
    SafeFixes(value);
    SafeFixes("unnamed");
    UnnamedIsSafe();
  }

  // Text that begins with another character is trimmed at its end only.
  lemma {:induction false} TrimmedPrefix(text: string, chars: string) returns (k: nat)
    requires text != "" && text[0] !in chars
    ensures 1 <= k <= |text| && TrimMatches(text, chars) == text[..k] && text[k - 1] !in chars
    ensures forall i | k <= i < |text| :: text[i] in chars
  {
    var back := TrimmedEnd(text, chars);
    var kept := TrimEnd(text, chars);
    TrimEndKeepsFirst(text, chars);
    LastIsKept(text, chars);
    k := |kept|;
    assert text == kept + back;
    forall i | k <= i < |text|
      ensures text[i] in chars
    {
      assert text[i] == back[i - k];
    }
  }

  lemma {:induction false} SafeBeginsAndEnds(title: string)
    requires Safe(title) != ""
    ensures var safe := Safe(title);
            && ' ' !in safe && safe[0] !in "-. " && safe[|safe| - 1] !in "-. "
  {
    var safe := Safe(title);
    SafeKeepsTheRest(title);
    SpaceIsSeparator();
    SafeCharacters(title);
    assert safe[0] in safe && safe[|safe| - 1] in safe;
  }

  // The file name of a note: what 40 characters of the title leave, and the ID.
  lemma {:induction false} NoteFileNameText(title: string, noteId: string)
    ensures Safe(title) == "" ==> NoteFileName(title, noteId) == noteId + ".adoc"
    ensures 0 < |Safe(title)| <= 40 ==> NoteFileName(title, noteId) == Safe(title) + "-" + noteId + ".adoc"
    ensures |Safe(title)| > 40 ==>
              exists k | 1 <= k <= 40 ::
                && OnlyDashesAndDots(Safe(title)[k..40]) && !IsDashOrDot(Safe(title)[k - 1])
                && NoteFileName(title, noteId) == Safe(title)[..k] + "-" + noteId + ".adoc"
  {
    var safe := Safe(title);
    if safe != "" {
      SafeBeginsAndEnds(title);
      var cut := if |safe| <= 40 then safe else safe[..40];
      var k := TrimmedPrefix(cut, "-. ");
      assert TitleInFileName(title) == cut[..k];
      if |safe| <= 40 {
        assert k == |safe| && cut[..k] == safe;
      } else {
        LongTitle(safe, k);
      }
    }
  }

  lemma {:induction false} LongTitle(safe: string, k: nat)
    requires 1 <= k <= 40 < |safe| && ' ' !in safe && safe[k - 1] !in "-. "
    requires forall i | k <= i < 40 :: safe[..40][i] in "-. "
    ensures OnlyDashesAndDots(safe[k..40]) && !IsDashOrDot(safe[k - 1]) && safe[..40][..k] == safe[..k]
  {
    forall i | 0 <= i < |safe[k..40]|
      ensures IsDashOrDot(safe[k..40][i])
    {
      assert safe[k + i] in safe && safe[..40][k + i] in "-. ";
    }
  }

  lemma {:induction false} SpaceIsSeparator()
    ensures IsSeparator(' ')
  {
  }

  lemma {:induction false} TrimEndKeepsFirst(text: string, chars: string)
    requires text != "" && text[0] !in chars
    ensures TrimEnd(text, chars) != ""
    decreases |text|
  {
    if text[|text| - 1] in chars {
      assert text[..|text| - 1][0] == text[0];
      TrimEndKeepsFirst(text[..|text| - 1], chars);
    }
  }

  lemma {:induction false} LastIsKept(text: string, chars: string)
    ensures var kept := TrimEnd(text, chars); kept != "" ==> kept[|kept| - 1] !in chars
    decreases |text|
  {
    if text != "" && text[|text| - 1] in chars {
      LastIsKept(text[..|text| - 1], chars);
    }
  }

  // ---------------------------------------------------------------- directories and paths

  function Repeated(prefix: string, n: nat): string {
    if n == 0 then "" else prefix + Repeated(prefix, n - 1)
  }

  lemma {:induction false} StrippedRepeated(prefix: string, n: nat, rest: string)
    requires prefix != "" && !(prefix <= rest)
    ensures StripPrefixes(Repeated(prefix, n) + rest, prefix) == rest
  {
    if n == 0 {
      assert "" + rest == rest;
    } else {
      var text := Repeated(prefix, n) + rest;
      assert text == prefix + (Repeated(prefix, n - 1) + rest);
      assert text[|prefix|..] == Repeated(prefix, n - 1) + rest;
      StrippedRepeated(prefix, n - 1, rest);
    }
  }

  // The directory of an owner: the issuer without its scheme, and the subject.
  lemma {:induction false} DirectoryText(https: nat, http: nat, host: string, subject: string)
    requires !("http://" <= host) && !("https://" <= Repeated("http://", http) + host)
    ensures OwnerDirectory(Repeated("https://", https) + (Repeated("http://", http) + host), subject)
            == NamedOrUnnamed(host) + "/" + NamedOrUnnamed(subject)
  {
    StrippedRepeated("https://", https, Repeated("http://", http) + host);
    StrippedRepeated("http://", http, host);
  }

  lemma {:induction false} PathTextsAre(directory: string, title: string, noteId: string, attachmentId: string,
                                        fileName: string)
    ensures NotePath(directory, title, noteId) == directory + "/notes/" + NoteFileName(title, noteId)
    ensures AttachmentPath(directory, attachmentId, fileName)
            == directory + "/attachments/" + (attachmentId + "-" + NamedOrUnnamed(fileName))
    ensures BibliographyPath(directory) == directory + "/bibliography.json"
  {
  }
}
