/** The handbook-page processor: one object per saved subject page, whose
    fields hold the normalised text of that page. The page's HTML tree is
    not modelled; a `PageText` holds the strings the tree lookups return. */
module HandbookPage {
  import opened Text
  import SubjectCodes
  import Anchors
  import Commencement
  import PageFields

  /** Where the corequisite text comes from: the nested element the first
      lookup reaches, or, when that lookup raises, the contents of the cell. */
  datatype CoreqSource = Nested(text: string) | CellContents(contents: seq<string>)

  /** The text extracted from one saved page, one field per lookup.
      `commencement` is the rendered element holding the study-period note,
      `None` when the page has no such note. */
  datatype PageText = PageText(
    filename: string,
    title: string,
    commencement: Option<string>,
    timeCommitment: string,
    corequisite: CoreqSource,
    overview: string,
    objectives: string,
    credit: string,
    assessment: string,
    prereq: string,
    nonallowed: string)

  /** The commencement date of a page without a study-period note. */
  const NotOffered: string := "Not Offered this year"

  /** The commencement date `__init__` computes from the rendered note. */
  function CommencementDate(commencement: Option<string>): string {
    match commencement
    case None => NotOffered
    case Some(text) => Join(Commencement.Kept(Commencement.SplitOnBr(text)), "<br>")
  }

  /** The corequisite text `__init__` computes. */
  function CorequisiteText(source: CoreqSource): string {
    match source
    case Nested(text) => text
    case CellContents(contents) => Anchors.RewriteEach(contents)
  }

  /** A code-shaped run of a suffix is one of the whole text. */
  lemma ShiftCode(s: string, d: nat, i: int)
    requires d <= |s| && SubjectCodes.CodeAt(s[d..], i)
    ensures SubjectCodes.CodeAt(s, i + d) && s[i + d..i + d + 9] == s[d..][i..i + 9]
  {
    assert s[d..][i..i + 9] == s[i + d..i + d + 9];
  }

  /** A code-shaped run at the front of the cleaned text was copied from the
      front of the text before cleaning. */
  lemma CodeAtFrontCopied(s: string)
    requires SubjectCodes.CodeAt(Anchors.Rewrite(s), 0)
    ensures SubjectCodes.CodeAt(s, 0) && s[0..9] == Anchors.Rewrite(s)[0..9]
  {
    var out := Anchors.Rewrite(s);
    assert forall j :: 0 <= j < 9 ==> out[j] == out[0..9][j] && out[j] != '<';
    Anchors.PlainPrefixCopied(s, 9);
    assert s[0..9] == s[..9] == out[..9] == out[0..9];
  }

  /** A code-shaped run of the cleaned text is a code-shaped run of the text
      before cleaning: replacements hold no letter or digit, so a run lies
      within text the rewrite copied. */
  lemma {:induction false} CleanedCodeWasThere(s: string, i: int)
    requires SubjectCodes.CodeAt(Anchors.Rewrite(s), i)
    ensures exists i' :: SubjectCodes.CodeAt(s, i') && s[i'..i' + 9] == Anchors.Rewrite(s)[i..i + 9]
    decreases |s|
  {
    var out := Anchors.Rewrite(s);
    var c := out[i..i + 9];
    if i == 0 {
      CodeAtFrontCopied(s);
    } else {
      var p, d := Anchors.RewriteStep(s);
      assert i >= |p| by {
        assert SubjectCodes.IsUpper(c[0]) && c[0] == out[i];
        if !(d == 1 && p == [s[0]]) {
          assert forall j :: 0 <= j < |p| ==> out[j] == p[j] && !SubjectCodes.IsUpper(p[j]);
        }
      }
      var rest := Anchors.Rewrite(s[d..]);
      assert rest[i - |p|..i - |p| + 9] == c;
      CleanedCodeWasThere(s[d..], i - |p|);
      var i' :| SubjectCodes.CodeAt(s[d..], i') && s[d..][i'..i' + 9] == c;
      ShiftCode(s, d, i');
    }
  }

  /** Cleaning the links never invents a prerequisite code: the codes of the
      cleaned text are among the codes of the text as extracted. */
  lemma CleaningKeepsCodes(s: string)
    ensures SubjectCodes.CodeSet(Anchors.Rewrite(s)) <= SubjectCodes.CodeSet(s)
  {
    forall c | c in SubjectCodes.CodeSet(Anchors.Rewrite(s)) ensures c in SubjectCodes.CodeSet(s) {
      SubjectCodes.CodeSetExact(Anchors.Rewrite(s), c);
      var i :| SubjectCodes.CodeAt(Anchors.Rewrite(s), i) && Anchors.Rewrite(s)[i..i + 9] == c;
      CleanedCodeWasThere(s, i);
      SubjectCodes.CodeSetExact(s, c);
    }
  }

  class Processor {
    var url: string
    var title: string
    var code: string
    var name: string
    var commencementDate: string
    var timeCommitment: string
    var corequisite: string
    var overview: string
    var objectives: string
    var credit: string
    var assessment: string
    var prereq: string
    var nonallowed: string

    /** `Processor(filename)`: `null` stands for the IndexError raised when the
        title holds no word. */
    static method Load(page: PageText) returns (p: Processor?)
      ensures p == null <==> PageFields.TitleCode(page.title).None?
      ensures p != null ==> fresh(p) && p.Matches(page)
    {
      if PageFields.Words(page.title) == [] {
        p := null;
      } else {
        p := new Processor(page);
      }
    }

    /** Every field holds what `__init__` computes from `page`. */
    ghost predicate Matches(page: PageText)
      reads this
    {
      && url == PageFields.PageUrl(page.filename)
      && title == page.title
      && PageFields.TitleCode(page.title) == Some(code)
      && name == PageFields.TitleName(page.title)
      && commencementDate == CommencementDate(page.commencement)
      && timeCommitment == PageFields.WithoutClosingBr(page.timeCommitment)
      && corequisite == CorequisiteText(page.corequisite)
      && overview == page.overview
      && objectives == page.objectives
      && credit == page.credit
      && assessment == page.assessment
      && prereq == Anchors.Rewrite(page.prereq)
      && nonallowed == page.nonallowed
    }

    /** `__init__`, after the tree lookups. */
    constructor (page: PageText)
      requires PageFields.Words(page.title) != []
      ensures Matches(page)
      ensures Anchors.AnchorFree(prereq)
    {
      url := PageFields.PageUrl(page.filename);
      title := page.title;
      code := PageFields.Words(page.title)[0];
      match page.commencement {
        case None =>
          commencementDate := NotOffered;
        case Some(text) =>
          var dates := Commencement.JoinCommenceDates(Commencement.SplitOnBr(text));
          commencementDate := dates;
      }
      timeCommitment := page.timeCommitment;
      corequisite := CorequisiteText(page.corequisite);
      overview := page.overview;
      objectives := page.objectives;
      name := PageFields.TitleName(page.title);
      credit := page.credit;
      assessment := page.assessment;
      prereq := page.prereq;
      nonallowed := page.nonallowed;
      new;
      assert commencementDate == CommencementDate(page.commencement);
      if |timeCommitment| >= 5 && timeCommitment[|timeCommitment| - 5..] == "</br>" {
        timeCommitment := timeCommitment[..|timeCommitment| - 5];
      }
      assert timeCommitment == PageFields.WithoutClosingBr(page.timeCommitment);
      CleanPrerequisiteLink();
    }

    /** `__clean_prerequisite_link`: the anchor tags of the prerequisite
        text become paragraph tags, in place. */
    method CleanPrerequisiteLink()
      modifies this`prereq
      ensures prereq == Anchors.Rewrite(old(prereq))
      ensures Anchors.AnchorFree(prereq)
    {
      Anchors.RewriteIsAnchorFree(prereq);
      prereq := Anchors.Rewrite(prereq);
    }

    /** `prereq_code`: the subject codes in the prerequisite text. */
    method PrereqCode() returns (codes: set<string>)
      ensures codes == SubjectCodes.CodeSet(prereq)
      ensures forall c :: c in codes ==> SubjectCodes.IsCode(c) && Occurs(c, prereq)
    {
      codes := SubjectCodes.CodeSet(prereq);
      forall c | c in codes ensures SubjectCodes.IsCode(c) && Occurs(c, prereq) {
        SubjectCodes.CodeSetMembers(prereq, c);
      }
    }

    /** `nonallowed_code`: the subject codes in the non-allowed-subjects text. */
    method NonallowedCode() returns (codes: set<string>)
      ensures codes == SubjectCodes.CodeSet(nonallowed)
      ensures forall c :: c in codes ==> SubjectCodes.IsCode(c) && Occurs(c, nonallowed)
    {
      codes := SubjectCodes.CodeSet(nonallowed);
      forall c | c in codes ensures SubjectCodes.IsCode(c) && Occurs(c, nonallowed) {
        SubjectCodes.CodeSetMembers(nonallowed, c);
      }
    }
  }
}
