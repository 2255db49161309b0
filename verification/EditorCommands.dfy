/** The words of the ra_svn editor command set (section 3.1.2 of the libsvn_ra_svn protocol
    document), as the sending and the receiving side spell them. */
module EditorCommands {
  import opened Common
  import opened Decimal
  import opened Wire

  datatype Command =
    | TargetRev | OpenRoot | DeleteEntry | AddDir | AddFile | OpenDir | OpenFile
    | ChangeDirProp | ChangeFileProp | CloseDir | AbsentDir | AbsentFile
    | ApplyTextdelta | TextdeltaChunk | TextdeltaEnd | CloseFile | CloseEdit | AbortEdit

  function Spelling(c: Command): Text {
    match c
    case TargetRev => [116, 97, 114, 103, 101, 116, 45, 114, 101, 118] // target-rev
    case OpenRoot => [111, 112, 101, 110, 45, 114, 111, 111, 116] // open-root
    case DeleteEntry => [100, 101, 108, 101, 116, 101, 45, 101, 110, 116, 114, 121] // delete-entry
    case AddDir => [97, 100, 100, 45, 100, 105, 114] // add-dir
    case AddFile => [97, 100, 100, 45, 102, 105, 108, 101] // add-file
    case OpenDir => [111, 112, 101, 110, 45, 100, 105, 114] // open-dir
    case OpenFile => [111, 112, 101, 110, 45, 102, 105, 108, 101] // open-file
    case ChangeDirProp => [99, 104, 97, 110, 103, 101, 45, 100, 105, 114, 45, 112, 114, 111, 112] // change-dir-prop
    case ChangeFileProp => [99, 104, 97, 110, 103, 101, 45, 102, 105, 108, 101, 45, 112, 114, 111, 112] // change-file-prop
    case CloseDir => [99, 108, 111, 115, 101, 45, 100, 105, 114] // close-dir
    case AbsentDir => [97, 98, 115, 101, 110, 116, 45, 100, 105, 114] // absent-dir
    case AbsentFile => [97, 98, 115, 101, 110, 116, 45, 102, 105, 108, 101] // absent-file
    case ApplyTextdelta => [97, 112, 112, 108, 121, 45, 116, 101, 120, 116, 100, 101, 108, 116, 97] // apply-textdelta
    case TextdeltaChunk => [116, 101, 120, 116, 100, 101, 108, 116, 97, 45, 99, 104, 117, 110, 107] // textdelta-chunk
    case TextdeltaEnd => [116, 101, 120, 116, 100, 101, 108, 116, 97, 45, 101, 110, 100] // textdelta-end
    case CloseFile => [99, 108, 111, 115, 101, 45, 102, 105, 108, 101] // close-file
    case CloseEdit => [99, 108, 111, 115, 101, 45, 101, 100, 105, 116] // close-edit
    case AbortEdit => [97, 98, 111, 114, 116, 45, 101, 100, 105, 116] // abort-edit
  }

  /** The cases of the receiver's switch. */
  const CASES: seq<Command> :=
    [TargetRev, OpenRoot, DeleteEntry, AddDir, AddFile, OpenDir, OpenFile, ChangeDirProp, ChangeFileProp,
     CloseDir, AbsentDir, AbsentFile, ApplyTextdelta, TextdeltaChunk, TextdeltaEnd, CloseFile, CloseEdit, AbortEdit]

  function FirstCase(word: Text, i: nat): Option<Command>
    requires i <= |CASES|
    decreases |CASES| - i
  {
    if i == |CASES| then None
    else if word == Spelling(CASES[i]) then Some(CASES[i])
    else FirstCase(word, i + 1)
  }

  /** The command a word names. */
  function CommandOf(word: Text): Option<Command> {
    FirstCase(word, 0)
  }

  lemma {:induction false} OpeningSpellings(c: Command)
    requires c.TargetRev? || c.OpenRoot? || c.AddDir? || c.AddFile? || c.OpenDir? || c.OpenFile?
    ensures ValidWord(Spelling(c))
  {
  }

  lemma {:induction false} ChangingSpellings(c: Command)
    requires c.DeleteEntry? || c.ChangeDirProp? || c.ChangeFileProp? || c.AbsentDir? || c.AbsentFile?
    ensures ValidWord(Spelling(c))
  {
  }

  lemma {:induction false} DeltaSpellings(c: Command)
    requires c.ApplyTextdelta? || c.TextdeltaChunk? || c.TextdeltaEnd?
    ensures ValidWord(Spelling(c))
  {
  }

  lemma {:induction false} ClosingSpellings(c: Command)
    requires c.CloseDir? || c.CloseFile? || c.CloseEdit? || c.AbortEdit?
    ensures ValidWord(Spelling(c))
  {
  }

  /** Every command's word is one the wire format allows. */
  lemma {:induction false} SpellingIsValid(c: Command)
    ensures ValidWord(Spelling(c))
  {
    match c {
      case TargetRev => OpeningSpellings(c);
      case OpenRoot => OpeningSpellings(c);
      case AddDir => OpeningSpellings(c);
      case AddFile => OpeningSpellings(c);
      case OpenDir => OpeningSpellings(c);
      case OpenFile => OpeningSpellings(c);
      case DeleteEntry => ChangingSpellings(c);
      case ChangeDirProp => ChangingSpellings(c);
      case ChangeFileProp => ChangingSpellings(c);
      case AbsentDir => ChangingSpellings(c);
      case AbsentFile => ChangingSpellings(c);
      case ApplyTextdelta => DeltaSpellings(c);
      case TextdeltaChunk => DeltaSpellings(c);
      case TextdeltaEnd => DeltaSpellings(c);
      case CloseDir => ClosingSpellings(c);
      case CloseFile => ClosingSpellings(c);
      case CloseEdit => ClosingSpellings(c);
      case AbortEdit => ClosingSpellings(c);
    }
  }

  lemma {:induction false} SpellingsDiffer(a: Command, b: Command)
    requires a != b
    ensures Spelling(a) != Spelling(b)
  {
    var (s, t) := (Spelling(a), Spelling(b));
    assert |s| != |t| || s[0] != t[0] || s[2] != t[2] || s[5] != t[5] || s[6] != t[6];
  }

  function Place(c: Command): nat {
    match c
    case TargetRev => 0
    case OpenRoot => 1
    case DeleteEntry => 2
    case AddDir => 3
    case AddFile => 4
    case OpenDir => 5
    case OpenFile => 6
    case ChangeDirProp => 7
    case ChangeFileProp => 8
    case CloseDir => 9
    case AbsentDir => 10
    case AbsentFile => 11
    case ApplyTextdelta => 12
    case TextdeltaChunk => 13
    case TextdeltaEnd => 14
    case CloseFile => 15
    case CloseEdit => 16
    case AbortEdit => 17
  }

  lemma {:induction false} PlaceIs(c: Command)
    ensures Place(c) < |CASES| && CASES[Place(c)] == c
  {
  }

  lemma {:induction false} FirstCaseFinds(c: Command, i: nat)
    requires i <= Place(c)
    ensures Place(c) < |CASES| && FirstCase(Spelling(c), i) == Some(c)
    decreases Place(c) - i
  {
    PlaceIs(c);
    if i < Place(c) {
      var other := CASES[i];
      if other == c { OnlyPlace(c, i); }
      SpellingsDiffer(other, c);
      FirstCaseFinds(c, i + 1);
    }
  }

  lemma {:induction false} OnlyPlace(c: Command, i: nat)
    requires i < |CASES| && CASES[i] == c
    ensures i == Place(c)
  {
  }

  /** The receiver recognizes every word the sender writes. */
  lemma {:induction false} CommandRoundTrip(c: Command)
    ensures CommandOf(Spelling(c)) == Some(c)
  {
    FirstCaseFinds(c, 0);
  }
}
