/**
 * The `Post` entity and its four attribute-set hooks: `validate_content`
 * (at least 250 characters), `validate_summary` (at most 250 characters when
 * given), `validate_category` (one of two literals) and `validate_title`
 * (contains one of four phrases).  Each hook depends on the candidate alone.
 */
module PostModel {
  import opened Outcomes
  import opened PyStr

  const ContentMessage: string := "Post content must be at least 250 characters"
  const SummaryMessage: string := "Summary must be 250 characters or less"
  const CategoryMessage: string := "Category must be Fiction or Non-Fiction"
  const TitleMessage: string := "Title must be clickbait-y"

  /** The fewest characters a content may have. */
  const MinContentLength: nat := 250
  /** The most characters a summary may have. */
  const MaxSummaryLength: nat := 250

  /** The allowed categories, as `validate_category` lists them. */
  const Categories: seq<string> := ["Fiction", "Non-Fiction"]

  /** The phrases `validate_title` looks for, in the order it tries them. */
  const ClickbaitPhrases: seq<string> := ["Won't Believe", "Secret", "Top", "Guess"]

  /** The hook `validate_content`: a missing or empty content, or one shorter
      than 250 characters, is refused. */
  function ValidateContent(content: Option<string>): (r: Outcome<Option<string>>)
    ensures r.Accepted? <==> content.Some? && |content.value| >= MinContentLength
    ensures r.Accepted? ==> r.value == content
    ensures r.Rejected? ==> r.message == ContentMessage
  {
    if content.None? || content.value == "" || |content.value| < MinContentLength then
      Rejected(ContentMessage)
    else
      Accepted(content)
  }

  /** The hook `validate_summary`: only a non-empty summary longer than 250
      characters is refused, so a missing or empty summary passes. */
  function ValidateSummary(summary: Option<string>): (r: Outcome<Option<string>>)
    ensures r.Accepted? <==> summary.None? || |summary.value| <= MaxSummaryLength
    ensures r.Accepted? ==> r.value == summary
    ensures r.Rejected? ==> r.message == SummaryMessage
  {
    if summary.Some? && summary.value != "" && |summary.value| > MaxSummaryLength then
      Rejected(SummaryMessage)
    else
      Accepted(summary)
  }

  /** The hook `validate_category`: a value that is not one of the listed
      categories is refused; `None` equals none of them. */
  function ValidateCategory(category: Option<string>): (r: Outcome<Option<string>>)
    ensures r.Accepted? <==> category == Some("Fiction") || category == Some("Non-Fiction")
    ensures r.Accepted? ==> r.value == category
    ensures r.Rejected? ==> r.message == CategoryMessage
  {
    if category.None? || category.value !in Categories then
      Rejected(CategoryMessage)
    else
      Accepted(category)
  }

  /** Whether some word of `words` is in `title`, trying the words left to
      right and stopping at the first that is found. */
  predicate AnyContained(words: seq<string>, title: string) {
    words != [] && (Contains(title, words[0]) || AnyContained(words[1..], title))
  }

  /** Some word of `words` occurs in `title` at some index. */
  ghost predicate SomeOccurs(words: seq<string>, title: string) {
    exists k, i :: 0 <= k < |words| && OccursAt(words[k], title, i)
  }

  /** The search over the words holds exactly when one of the words
      occurs somewhere in the title. */
  lemma {:induction false} AnyContainedIff(words: seq<string>, title: string)
    ensures AnyContained(words, title) <==> SomeOccurs(words, title)
  {
    if words != [] {
      ContainsIffOccurs(title, words[0]);
      AnyContainedIff(words[1..], title);
      if k, i :| 0 <= k < |words[1..]| && OccursAt(words[1..][k], title, i) {
        assert OccursAt(words[k + 1], title, i);
      }
      if k, i :| 0 <= k < |words| && OccursAt(words[k], title, i) {
        if k > 0 {
          assert OccursAt(words[1..][k - 1], title, i);
        }
      }
    }
  }

  /** The hook `validate_title`: it rejects unless one of the four phrases
      occurs in the title, case and punctuation included. */
  function ValidateTitle(title: string): (r: Outcome<string>)
    ensures r.Accepted? <==> SomeOccurs(ClickbaitPhrases, title)
    ensures r.Accepted? ==> r.value == title
    ensures r.Rejected? ==> r.message == TitleMessage
  {
    AnyContainedIff(ClickbaitPhrases, title);
    if !AnyContained(ClickbaitPhrases, title) then Rejected(TitleMessage) else Accepted(title)
  }

  /** The length boundaries of content and summary: 249 characters of content
      are refused and 250 accepted; 250 characters of summary are accepted
      and 251 refused. */
  lemma LengthBoundaries(s: string)
    ensures |s| == MinContentLength - 1 ==> ValidateContent(Some(s)).Rejected?
    ensures |s| == MinContentLength ==> ValidateContent(Some(s)).Accepted?
    ensures |s| == MaxSummaryLength ==> ValidateSummary(Some(s)).Accepted?
    ensures |s| == MaxSummaryLength + 1 ==> ValidateSummary(Some(s)).Rejected?
    ensures ValidateContent(None).Rejected? && ValidateContent(Some("")).Rejected?
    ensures ValidateSummary(None).Accepted? && ValidateSummary(Some("")).Accepted?
  {
  }

  /** Category membership is exact: a change of case, the empty string and a
      missing value are all refused. */
  lemma CategoryExamples()
    ensures ValidateCategory(Some("Fiction")).Accepted?
    ensures ValidateCategory(Some("Non-Fiction")).Accepted?
    ensures ValidateCategory(Some("fiction")).Rejected?
    ensures ValidateCategory(Some("")).Rejected?
    ensures ValidateCategory(None).Rejected?
  {
    assert "fiction" != "Fiction" by { assert "fiction"[0] != "Fiction"[0]; }
    assert "fiction" != "Non-Fiction" by { assert |"fiction"| != |"Non-Fiction"|; }
  }

  /** A title that holds a phrase anywhere is accepted; a title without any of
      the phrases' first letters cannot hold one. */
  lemma TitleExamples()
    ensures ValidateTitle("Top 10 facts").Accepted?
    ensures ValidateTitle("You Won't Believe This").Accepted?
    ensures ValidateTitle("Ordinary news").Rejected?
    ensures ValidateTitle("top 10 facts").Rejected?
  {
    assert OccursAt("Top", "Top 10 facts", 0);
    assert ClickbaitPhrases[2] == "Top";
    assert OccursAt("Won't Believe", "You Won't Believe This", 4);
    assert ClickbaitPhrases[0] == "Won't Believe";
    NoPhraseWithoutInitials("Ordinary news");
    NoPhraseWithoutInitials("top 10 facts");
  }

  /** Every phrase starts with a capital W, S, T or G, so a title with none
      of those letters is refused. */
  lemma NoPhraseWithoutInitials(title: string)
    requires 'W' !in title && 'S' !in title && 'T' !in title && 'G' !in title
    ensures ValidateTitle(title).Rejected?
  {
    forall k | 0 <= k < |ClickbaitPhrases|
      ensures !exists i :: OccursAt(ClickbaitPhrases[k], title, i)
    {
      NotContainedWithoutFirstChar(title, ClickbaitPhrases[k]);
      ContainsIffOccurs(title, ClickbaitPhrases[k]);
    }
  }

  /** A Post entity in memory.  `None` is a field never written (or, for the
      summary, a summary written as `None`). */
  class Post {
    var title: Option<string>
    var content: Option<string>
    var category: Option<string>
    var summary: Option<string>

    /** Every field that has been written holds a value its hook accepted. */
    ghost predicate Valid()
      reads this
    {
      (title.Some? ==> ValidateTitle(title.value).Accepted?)
      && (content.Some? ==> ValidateContent(content).Accepted?)
      && (category.Some? ==> ValidateCategory(category).Accepted?)
      && ValidateSummary(summary).Accepted?
    }

    constructor ()
      ensures title == None && content == None && category == None && summary == None
      ensures Valid()
    {
      title, content, category, summary := None, None, None, None;
    }

    /** `post.title = candidate`. */
    method SetTitle(candidate: string) returns (r: Outcome<string>)
      requires Valid()
      modifies this`title
      ensures Valid()
      ensures r == ValidateTitle(candidate)
      ensures title == if r.Accepted? then Some(candidate) else old(title)
    {
      r := ValidateTitle(candidate);
      if r.Accepted? {
        title := Some(r.value);
      }
    }

    /** `post.content = candidate`. */
    method SetContent(candidate: Option<string>) returns (r: Outcome<Option<string>>)
      requires Valid()
      modifies this`content
      ensures Valid()
      ensures r == ValidateContent(candidate)
      ensures content == if r.Accepted? then candidate else old(content)
    {
      r := ValidateContent(candidate);
      if r.Accepted? {
        content := r.value;
      }
    }

    /** `post.summary = candidate`. */
    method SetSummary(candidate: Option<string>) returns (r: Outcome<Option<string>>)
      requires Valid()
      modifies this`summary
      ensures Valid()
      ensures r == ValidateSummary(candidate)
      ensures summary == if r.Accepted? then candidate else old(summary)
    {
      r := ValidateSummary(candidate);
      if r.Accepted? {
        summary := r.value;
      }
    }

    /** `post.category = candidate`. */
    method SetCategory(candidate: Option<string>) returns (r: Outcome<Option<string>>)
      requires Valid()
      modifies this`category
      ensures Valid()
      ensures r == ValidateCategory(candidate)
      ensures category == if r.Accepted? then candidate else old(category)
    {
      r := ValidateCategory(candidate);
      if r.Accepted? {
        category := r.value;
      }
    }
  }
}
