/** The POST /update-data route (app/api/update-data/route.ts): validate
    the body's `content`, then store its trimmed text. */
module UpdateData {
  import opened Text
  import opened Request
  import opened SchoolData

  const ContentRequired := "Content is required and must be a string"
  const ContentEmpty := "Content cannot be empty"
  const UpdatedMessage := "School data updated successfully"

  /** The route's JSON reply: a 400 `{ error }` or `{ message, lastUpdated }`. */
  datatype UpdateReply = BadRequest(error: string) | Updated(message: string, lastUpdated: Timestamp)

  /** The outcome of the two checks: the text to store, or the 400 message. */
  datatype Checked = Rejected(error: string) | Accepted(content: string)

  /** Text the route is willing to store: non-empty and without white
      space at either end. */
  predicate IsCleanContent(s: string) {
    s != "" && IsTrimmed(s)
  }

  /** The two checks of the route, in order. A body passes exactly when its
      `content` is a string that is not all white space, and then the text
      to store is that string trimmed, which is clean. */
  function Check(content: Field): (r: Checked)
    ensures r.Accepted? <==> content.Str? && !AllSpace(content.value)
    ensures r.Accepted? ==> r.content == Trim(content.value) && IsCleanContent(r.content)
    ensures r.Rejected? && content.Str? && content.value != "" ==> r.error == ContentEmpty
    ensures r.Rejected? && !(content.Str? && content.value != "") ==> r.error == ContentRequired
  {
    if !IsNonEmptyString(content) then Rejected(ContentRequired)
    else if |Trim(content.value)| == 0 then Rejected(ContentEmpty)
    else Accepted(Trim(content.value))
  }

  /** `POST(request)` at instant `now`. On a rejected body the store is left
      as it was; otherwise it holds the trimmed text stamped `now`, and the
      reply carries the `lastUpdated` of the record now stored. */
  method Post(store: Store, content: Field, now: Timestamp) returns (r: UpdateReply)
    modifies store
    ensures Check(content).Rejected? ==>
      r == BadRequest(Check(content).error) && store.data == old(store.data)
    ensures Check(content).Accepted? ==>
      store.data == SchoolRecord(Check(content).content, now) &&
      r == Updated(UpdatedMessage, store.data.lastUpdated)
    ensures IsCleanContent(old(store.data.content)) ==> IsCleanContent(store.data.content)
  {
    var checked := Check(content);
    match checked {
      case Rejected(error) =>
        r := BadRequest(error);
      case Accepted(text) =>
        var updated := store.Update(text, now);
        r := Updated(UpdatedMessage, updated.lastUpdated);
    }
  }

  /** A successful update leaves clean text in the store, whatever was
      submitted. */
  lemma AcceptedIsClean(s: string)
    requires Check(Str(s)).Accepted?
    ensures IsCleanContent(Check(Str(s)).content)
    ensures Check(Str(s)).content != "" && Trim(Check(Str(s)).content) == Check(Str(s)).content
  {
    TrimIdempotent(s);
  }

  /** A non-empty all-white-space text passes the first check and fails
      the second. */
  lemma BlankContentRejected(s: string)
    requires s != "" && AllSpace(s)
    ensures Check(Str(s)) == Rejected(ContentEmpty)
  {
  }

  /** Submitting clean text, such as the text the route itself stored,
      stores that same text again: `trim` is idempotent. */
  lemma ResubmitStoresSame(s: string)
    requires IsCleanContent(s)
    ensures Check(Str(s)) == Accepted(s)
  {
    TrimmedIsFixed(s);
  }

  /** Two bodies whose strings differ only in surrounding white space are
      stored identically. */
  lemma PaddingIsIgnored(pre: string, s: string, post: string)
    requires AllSpace(pre) && AllSpace(post) && IsCleanContent(s)
    ensures Check(Str(pre + s + post)) == Accepted(s)
  {
    TrimOfPadded(pre, s, post);
  }

  /** The built-in text is already clean: its first paragraph starts with
      '#' and its last one ends with '.'. So, with `Post`'s last ensures
      clause, the store holds clean text from module load on, not only
      after the first accepted update. */
  lemma DefaultContentIsClean()
    ensures IsCleanContent(DefaultContent)
  {
    OuterParagraphs();
    assert Paragraphs[0] == Paragraph00 && Paragraphs[|Paragraphs| - 1] == Paragraph27;
    JoinTrimmed(Paragraphs, Blank);
  }

  /** The characters at the two ends of the built-in text. */
  lemma OuterParagraphs()
    ensures Paragraph00 != [] && Paragraph00[0] == '#'
    ensures Paragraph27 != [] && Paragraph27[|Paragraph27| - 1] == '.'
  {
  }
}
