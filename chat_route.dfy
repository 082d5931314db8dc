/** The POST /chat route (app/api/chat/route.ts): a message check, a topic
    gate over the trimmed question, then the completion service's text or,
    when that call fails, the rule-based responder `generateContextualResponse`. */
module Chat {
  import opened Text
  import opened Request
  import opened SchoolData

  /* ---------------- fixed replies ---------------- */

  const MessageRequired := "Message is required and must be a string"
  const OffTopicReply := "Sorry, I can only answer questions related to Mar Baselios School. Please ask me about our facilities, location, timings, admission process, or any other school-related information."

  const LocationAnswer := "Mar Baselios School is located in the heart of the city. For the exact address and directions, please contact our office for detailed location information."
  const VisionAnswer := "Our school was founded with the vision of providing quality education that nurtures both academic excellence and character development. We believe in holistic education that prepares students not just for academic success, but for life."
  const TimingAnswer := "Our school timings are from 8:00 AM to 3:00 PM, Monday through Friday."
  const ContactAnswer := "For admissions and general inquiries, please contact our office at +91-XXXXXXXXXX or email us at info@marbaseliossschool.edu."
  const FacilitiesAnswer := "The school features modern facilities including well-equipped laboratories, a library, computer center, sports grounds, and auditorium. These facilities support our comprehensive educational approach."
  const ClassAnswer := "We offer classes from kindergarten through grade 12, with a comprehensive curriculum that includes science, mathematics, languages, arts, and sports."
  const FacultyAnswer := "Our experienced faculty is dedicated to creating a supportive learning environment where every student can thrive. They are committed to both academic excellence and character development."
  const OverviewAnswer := "Mar Baselios School is a prestigious educational institution that provides quality education nurturing both academic excellence and character development. We offer comprehensive education from kindergarten through grade 12 with modern facilities and experienced faculty."
  const MoreSpecificAnswer := "Based on the information I have about Mar Baselios School, I can tell you that we are a prestigious educational institution focused on providing quality education. Could you please ask a more specific question about our facilities, location, timings, or curriculum?"

  /* ---------------- topic gate ---------------- */

  /** `schoolKeywords`, in source order. */
  const Keywords: seq<string> := [
    "school", "mar baselios", "education", "student", "teacher", "class",
    "facility", "location", "contact", "admission", "timing", "vision",
    "mission", "curriculum", "sports", "library", "laboratory", "fee",
    "grade", "kindergarten", "primary", "secondary", "principal", "staff"
  ]

  /** `keywords.some(k => lq.includes(k) || lc.includes(lq))`. Over a
      non-empty keyword list it is the disjunction of "a keyword occurs in
      the question" and "the question occurs in the content": the second
      test does not depend on the keyword. */
  predicate SomeKeywordOrEcho(keywords: seq<string>, lowerQuestion: string, lowerContent: string)
    ensures SomeKeywordOrEcho(keywords, lowerQuestion, lowerContent) <==>
      (ContainsAny(lowerQuestion, keywords) || (|keywords| > 0 && Contains(lowerContent, lowerQuestion)))
    decreases |keywords|
  {
    |keywords| > 0 &&
    (Contains(lowerQuestion, keywords[0]) || Contains(lowerContent, lowerQuestion) ||
     SomeKeywordOrEcho(keywords[1..], lowerQuestion, lowerContent))
  }

  /** `isSchoolRelated` for the trimmed question and the stored content:
      it passes exactly when one of the 24 keywords occurs in the
      lower-cased question, or the lower-cased question occurs in the
      lower-cased content. */
  predicate IsSchoolRelated(question: string, content: string)
    ensures IsSchoolRelated(question, content) <==>
      (exists i :: 0 <= i < |Keywords| && Contains(Lower(question), Keywords[i])) ||
      Contains(Lower(content), Lower(question))
  {
    ContainsAnyIff(Lower(question), Keywords);
    SomeKeywordOrEcho(Keywords, Lower(question), Lower(content))
  }

  /** A question that is empty after trimming passes the gate, whatever the
      content: the empty text occurs in every text. */
  lemma EmptyQuestionPasses(content: string)
    ensures IsSchoolRelated("", content)
  {
    assert Contains(Lower(content), Lower(""));
  }

  /* ---------------- fallback responder ---------------- */

  /** `some` over the question's words: a word longer than three characters
      occurs in the lower-cased sentence. */
  predicate IsRelevant(sentence: string, words: seq<string>)
    ensures IsRelevant(sentence, words) ==> |sentence| >= 4
  {
    exists w :: w in words && |w| > 3 && Contains(Lower(sentence), w)
  }

  /** `sentences.filter(s => IsRelevant(s, words))`: the relevant
      sentences, in their original order. */
  function RelevantSentences(sentences: seq<string>, words: seq<string>): (r: seq<string>)
    ensures |r| <= |sentences|
    ensures forall s :: s in r <==> s in sentences && IsRelevant(s, words)
    decreases |sentences|
  {
    if sentences == [] then []
    else if IsRelevant(sentences[0], words) then [sentences[0]] + RelevantSentences(sentences[1..], words)
    else RelevantSentences(sentences[1..], words)
  }

  /** Filtering distributes over concatenation, so the relevant sentences
      keep the order they have in the text. */
  lemma {:induction false} RelevantSentencesAppend(a: seq<string>, b: seq<string>, words: seq<string>)
    ensures RelevantSentences(a + b, words) == RelevantSentences(a, words) + RelevantSentences(b, words)
    decreases |a|
  {
    if a == [] {
      assert a + b == b;
    } else {
      assert (a + b)[0] == a[0];
      assert (a + b)[1..] == a[1..] + b;
      RelevantSentencesAppend(a[1..], b, words);
    }
  }

  /** The sentences of `context` (its pieces between occurrences of ". ")
      that share a long word with the question: no more than there are
      sentences, each of at least four characters and none holding ". ". */
  function Relevant(lowerQuestion: string, context: string): (r: seq<string>)
    ensures |r| <= |Split(context, ". ")|
    ensures forall k :: 0 <= k < |r| ==> |r[k]| >= 4 && !Contains(r[k], ". ")
  {
    var sentences := Split(context, ". ");
    SplitPiecesFree(context, ". ");
    var r := RelevantSentences(sentences, Split(lowerQuestion, " "));
    assert forall k :: 0 <= k < |r| ==> r[k] in sentences;
    r
  }

  /** `relevant.slice(0, 2).join(". ") + (relevant.length > 1 ? "." : "")`,
      or the "more specific question" reply when nothing is relevant: the
      first sentence alone, or the first two sentences as one text ending
      in a period. */
  function Summary(relevant: seq<string>): (r: string)
    ensures |relevant| == 0 ==> r == MoreSpecificAnswer
    ensures |relevant| == 1 ==> r == relevant[0]
    ensures |relevant| >= 2 ==> r == relevant[0] + ". " + relevant[1] + "."
  {
    if |relevant| == 0 then MoreSpecificAnswer
    else
      var firstTwo := if |relevant| < 2 then relevant else relevant[..2];
      assert |relevant| >= 2 ==> firstTwo[1..] == [relevant[1]] && Join(firstTwo[1..], ". ") == relevant[1];
      Join(firstTwo, ". ") + (if |relevant| > 1 then "." else "")
  }

  /** The extractor at the end of `generateContextualResponse`, applied to
      the sentences of `context` that share a long word with the question.
      It is never empty. */
  function ExtractedAnswer(lowerQuestion: string, context: string): (r: string)
    ensures |r| > 0
  {
    Summary(Relevant(lowerQuestion, context))
  }

  /** `generateContextualResponse(question, context)`: the first category,
      in source order, whose trigger occurs in the lower-cased question and
      whose corroborating phrase occurs in the lower-cased context answers
      with its fixed text; a trigger without corroboration falls through to
      the next category. The "general information" category needs no
      corroboration; after it comes the extractor. Every branch, the
      extractor's included, gives a non-empty reply. */
  function ContextualResponse(question: string, context: string): (r: string)
    ensures |r| > 0
  {
    var lq := Lower(question);
    var lc := Lower(context);
    if (Contains(lq, "location") || Contains(lq, "where") || Contains(lq, "address"))
       && (Contains(lc, "located") || Contains(lc, "heart of the city"))
    then LocationAnswer
    else if (Contains(lq, "vision") || Contains(lq, "mission") || Contains(lq, "goal"))
       && Contains(lc, "vision")
    then VisionAnswer
    else if (Contains(lq, "timing") || Contains(lq, "time") || Contains(lq, "hours") || Contains(lq, "schedule"))
       && (Contains(lc, "8:00 am") || Contains(lc, "3:00 pm"))
    then TimingAnswer
    else if (Contains(lq, "contact") || Contains(lq, "phone") || Contains(lq, "email") || Contains(lq, "reach"))
       && (Contains(lc, "contact") || Contains(lc, "inquiries"))
    then ContactAnswer
    else if (Contains(lq, "facilities") || Contains(lq, "facility") || Contains(lq, "laboratory")
             || Contains(lq, "library") || Contains(lq, "sports"))
       && (Contains(lc, "facilities") || Contains(lc, "laboratory") || Contains(lc, "library"))
    then FacilitiesAnswer
    else if (Contains(lq, "class") || Contains(lq, "grade") || Contains(lq, "curriculum") || Contains(lq, "subjects"))
       && (Contains(lc, "kindergarten") || Contains(lc, "grade 12") || Contains(lc, "curriculum"))
    then ClassAnswer
    else if (Contains(lq, "teacher") || Contains(lq, "faculty") || Contains(lq, "staff"))
       && (Contains(lc, "faculty") || Contains(lc, "experienced"))
    then FacultyAnswer
    else if Contains(lq, "about") || Contains(lq, "tell me") || Contains(lq, "information")
    then OverviewAnswer
    else ExtractedAnswer(lq, context)
  }

  /* ---------------- the responder as an ordered rule table ---------------- */

  /** One category: the words that trigger it in the question, the phrases
      that corroborate it in the context, and its fixed answer. A category
      with `corroborated` false answers on its trigger alone. */
  datatype Rule = Rule(triggers: seq<string>, evidence: seq<string>, corroborated: bool, answer: string)

  predicate Fires(rule: Rule, lowerQuestion: string, lowerContext: string) {
    ContainsAny(lowerQuestion, rule.triggers) &&
    (!rule.corroborated || ContainsAny(lowerContext, rule.evidence))
  }

  const LocationRule := Rule(["location", "where", "address"], ["located", "heart of the city"], true, LocationAnswer)
  const VisionRule := Rule(["vision", "mission", "goal"], ["vision"], true, VisionAnswer)
  const TimingRule := Rule(["timing", "time", "hours", "schedule"], ["8:00 am", "3:00 pm"], true, TimingAnswer)
  const ContactRule := Rule(["contact", "phone", "email", "reach"], ["contact", "inquiries"], true, ContactAnswer)
  const FacilitiesRule := Rule(["facilities", "facility", "laboratory", "library", "sports"],
                               ["facilities", "laboratory", "library"], true, FacilitiesAnswer)
  const ClassRule := Rule(["class", "grade", "curriculum", "subjects"], ["kindergarten", "grade 12", "curriculum"], true, ClassAnswer)
  const FacultyRule := Rule(["teacher", "faculty", "staff"], ["faculty", "experienced"], true, FacultyAnswer)
  const OverviewRule := Rule(["about", "tell me", "information"], [], false, OverviewAnswer)

  /** The categories of `generateContextualResponse`, in the order tried. */
  const Rules: seq<Rule> := [
    LocationRule, VisionRule, TimingRule, ContactRule,
    FacilitiesRule, ClassRule, FacultyRule, OverviewRule
  ]

  /** First match wins over an ordered rule list; `otherwise` when no rule
      fires. */
  function FirstMatch(rules: seq<Rule>, lowerQuestion: string, lowerContext: string, otherwise: string): (r: string)
    decreases |rules|
  {
    if rules == [] then otherwise
    else if Fires(rules[0], lowerQuestion, lowerContext) then rules[0].answer
    else FirstMatch(rules[1..], lowerQuestion, lowerContext, otherwise)
  }

  /** The answer of the first rule that fires is the result. */
  lemma {:induction false} FirstMatchPicksFirst(rules: seq<Rule>, lq: string, lc: string, otherwise: string, i: nat)
    requires i < |rules| && Fires(rules[i], lq, lc)
    requires forall j :: 0 <= j < i ==> !Fires(rules[j], lq, lc)
    ensures FirstMatch(rules, lq, lc, otherwise) == rules[i].answer
    decreases i
  {
    if i > 0 {
      assert !Fires(rules[0], lq, lc);
      FirstMatchPicksFirst(rules[1..], lq, lc, otherwise, i - 1);
    }
  }

  /** When no rule fires the result is the fallback. */
  lemma {:induction false} FirstMatchNone(rules: seq<Rule>, lq: string, lc: string, otherwise: string)
    requires forall j :: 0 <= j < |rules| ==> !Fires(rules[j], lq, lc)
    ensures FirstMatch(rules, lq, lc, otherwise) == otherwise
    decreases |rules|
  {
    if rules != [] {
      assert !Fires(rules[0], lq, lc);
      FirstMatchNone(rules[1..], lq, lc, otherwise);
    }
  }

  /** One step of first-match evaluation from position `k` on. */
  lemma FirstMatchStep(rules: seq<Rule>, k: nat, lq: string, lc: string, otherwise: string)
    requires k < |rules|
    ensures FirstMatch(rules[k..], lq, lc, otherwise) ==
      if Fires(rules[k], lq, lc) then rules[k].answer else FirstMatch(rules[k + 1..], lq, lc, otherwise)
  {
    assert rules[k..][1..] == rules[k + 1..];
  }

  lemma AnyOf2(s: string, a: string, b: string)
    ensures ContainsAny(s, [a, b]) <==> Contains(s, a) || Contains(s, b)
  {
    assert [b][1..] == [];
    assert ContainsAny(s, [b]) <==> Contains(s, b);
    assert [a, b][1..] == [b];
  }

  lemma AnyOf3(s: string, a: string, b: string, c: string)
    ensures ContainsAny(s, [a, b, c]) <==> Contains(s, a) || Contains(s, b) || Contains(s, c)
  {
    assert [a, b, c][1..] == [b, c];
    AnyOf2(s, b, c);
  }

  lemma AnyOf4(s: string, a: string, b: string, c: string, d: string)
    ensures ContainsAny(s, [a, b, c, d]) <==> Contains(s, a) || Contains(s, b) || Contains(s, c) || Contains(s, d)
  {
    assert [a, b, c, d][1..] == [b, c, d];
    AnyOf3(s, b, c, d);
  }

  lemma AnyOf5(s: string, a: string, b: string, c: string, d: string, e: string)
    ensures ContainsAny(s, [a, b, c, d, e]) <==>
      Contains(s, a) || Contains(s, b) || Contains(s, c) || Contains(s, d) || Contains(s, e)
  {
    assert [a, b, c, d, e][1..] == [b, c, d, e];
    AnyOf4(s, b, c, d, e);
  }

  /** Each entry of `Rules` fires exactly when the corresponding `if` of
      `generateContextualResponse` takes its `return`. */
  lemma RulesMatchChain(lq: string, lc: string)
    ensures Fires(LocationRule, lq, lc) <==>
      (Contains(lq, "location") || Contains(lq, "where") || Contains(lq, "address"))
      && (Contains(lc, "located") || Contains(lc, "heart of the city"))
    ensures Fires(VisionRule, lq, lc) <==>
      (Contains(lq, "vision") || Contains(lq, "mission") || Contains(lq, "goal")) && Contains(lc, "vision")
    ensures Fires(TimingRule, lq, lc) <==>
      (Contains(lq, "timing") || Contains(lq, "time") || Contains(lq, "hours") || Contains(lq, "schedule"))
      && (Contains(lc, "8:00 am") || Contains(lc, "3:00 pm"))
    ensures Fires(ContactRule, lq, lc) <==>
      (Contains(lq, "contact") || Contains(lq, "phone") || Contains(lq, "email") || Contains(lq, "reach"))
      && (Contains(lc, "contact") || Contains(lc, "inquiries"))
    ensures Fires(FacilitiesRule, lq, lc) <==>
      (Contains(lq, "facilities") || Contains(lq, "facility") || Contains(lq, "laboratory")
       || Contains(lq, "library") || Contains(lq, "sports"))
      && (Contains(lc, "facilities") || Contains(lc, "laboratory") || Contains(lc, "library"))
    ensures Fires(ClassRule, lq, lc) <==>
      (Contains(lq, "class") || Contains(lq, "grade") || Contains(lq, "curriculum") || Contains(lq, "subjects"))
      && (Contains(lc, "kindergarten") || Contains(lc, "grade 12") || Contains(lc, "curriculum"))
    ensures Fires(FacultyRule, lq, lc) <==>
      (Contains(lq, "teacher") || Contains(lq, "faculty") || Contains(lq, "staff"))
      && (Contains(lc, "faculty") || Contains(lc, "experienced"))
    ensures Fires(OverviewRule, lq, lc) <==>
      Contains(lq, "about") || Contains(lq, "tell me") || Contains(lq, "information")
  {
    AnyOf3(lq, "location", "where", "address");
    AnyOf2(lc, "located", "heart of the city");
    AnyOf3(lq, "vision", "mission", "goal");
    AnyOf4(lq, "timing", "time", "hours", "schedule");
    AnyOf2(lc, "8:00 am", "3:00 pm");
    AnyOf4(lq, "contact", "phone", "email", "reach");
    AnyOf2(lc, "contact", "inquiries");
    AnyOf5(lq, "facilities", "facility", "laboratory", "library", "sports");
    AnyOf3(lc, "facilities", "laboratory", "library");
    AnyOf4(lq, "class", "grade", "curriculum", "subjects");
    AnyOf3(lc, "kindergarten", "grade 12", "curriculum");
    AnyOf3(lq, "teacher", "faculty", "staff");
    AnyOf2(lc, "faculty", "experienced");
    AnyOf3(lq, "about", "tell me", "information");
  }

  /** First-match evaluation of `Rules`, unrolled. */
  lemma RulesUnrolled(lq: string, lc: string, otherwise: string)
    ensures FirstMatch(Rules, lq, lc, otherwise) ==
      if Fires(LocationRule, lq, lc) then LocationAnswer
      else if Fires(VisionRule, lq, lc) then VisionAnswer
      else if Fires(TimingRule, lq, lc) then TimingAnswer
      else if Fires(ContactRule, lq, lc) then ContactAnswer
      else if Fires(FacilitiesRule, lq, lc) then FacilitiesAnswer
      else if Fires(ClassRule, lq, lc) then ClassAnswer
      else if Fires(FacultyRule, lq, lc) then FacultyAnswer
      else if Fires(OverviewRule, lq, lc) then OverviewAnswer
      else otherwise
  {
    assert Rules[0] == LocationRule && Rules[1] == VisionRule && Rules[2] == TimingRule;
    assert Rules[3] == ContactRule && Rules[4] == FacilitiesRule && Rules[5] == ClassRule;
    assert Rules[6] == FacultyRule && Rules[7] == OverviewRule;
    assert Rules[0..] == Rules;
    FirstMatchStep(Rules, 0, lq, lc, otherwise);
    FirstMatchStep(Rules, 1, lq, lc, otherwise);
    FirstMatchStep(Rules, 2, lq, lc, otherwise);
    FirstMatchStep(Rules, 3, lq, lc, otherwise);
    FirstMatchStep(Rules, 4, lq, lc, otherwise);
    FirstMatchStep(Rules, 5, lq, lc, otherwise);
    FirstMatchStep(Rules, 6, lq, lc, otherwise);
    FirstMatchStep(Rules, 7, lq, lc, otherwise);
    assert Rules[8..] == [];
  }

  /** The chain of `if`s in `generateContextualResponse` is first-match
      evaluation of `Rules`, with the extractor as the fallback. */
  lemma ChainIsRuleTable(question: string, context: string)
    ensures ContextualResponse(question, context) ==
      FirstMatch(Rules, Lower(question), Lower(context), ExtractedAnswer(Lower(question), context))
  {
    var lq, lc := Lower(question), Lower(context);
    var otherwise := ExtractedAnswer(lq, context);
    RulesUnrolled(lq, lc, otherwise);
    RulesMatchChain(lq, lc);
    assert ContextualResponse(question, context) ==
      if Fires(LocationRule, lq, lc) then LocationAnswer
      else if Fires(VisionRule, lq, lc) then VisionAnswer
      else if Fires(TimingRule, lq, lc) then TimingAnswer
      else if Fires(ContactRule, lq, lc) then ContactAnswer
      else if Fires(FacilitiesRule, lq, lc) then FacilitiesAnswer
      else if Fires(ClassRule, lq, lc) then ClassAnswer
      else if Fires(FacultyRule, lq, lc) then FacultyAnswer
      else if Fires(OverviewRule, lq, lc) then OverviewAnswer
      else otherwise;
  }

  /** Category precedence: the result is the answer of the first category
      that fires, whatever later categories would say. */
  lemma CategoryPrecedence(question: string, context: string, i: nat)
    requires i < |Rules| && Fires(Rules[i], Lower(question), Lower(context))
    requires forall j :: 0 <= j < i ==> !Fires(Rules[j], Lower(question), Lower(context))
    ensures ContextualResponse(question, context) == Rules[i].answer
  {
    ChainIsRuleTable(question, context);
    FirstMatchPicksFirst(Rules, Lower(question), Lower(context), ExtractedAnswer(Lower(question), context), i);
  }

  /** A question that triggers both the timing and the contact category,
      against content that corroborates timing, gets the timing answer
      unless the location or vision category fired first. */
  lemma TimingBeforeContact(question: string, context: string)
    requires Fires(TimingRule, Lower(question), Lower(context))
    requires !Fires(LocationRule, Lower(question), Lower(context))
    requires !Fires(VisionRule, Lower(question), Lower(context))
    ensures ContextualResponse(question, context) == TimingAnswer
  {
    assert Rules[0] == LocationRule && Rules[1] == VisionRule && Rules[2] == TimingRule;
    CategoryPrecedence(question, context, 2);
  }

  /** The "general information" category checks nothing in the content:
      once no earlier category fired, "about", "tell me" or "information"
      in the question yields the fixed overview and the extractor is not
      reached, even when some sentence would have matched. */
  lemma GeneralQuestionSkipsExtractor(question: string, context: string)
    requires forall j :: 0 <= j < 7 ==> !Fires(Rules[j], Lower(question), Lower(context))
    requires Contains(Lower(question), "about") || Contains(Lower(question), "tell me")
             || Contains(Lower(question), "information")
    ensures ContextualResponse(question, context) == OverviewAnswer
  {
    RulesMatchChain(Lower(question), Lower(context));
    assert Rules[7] == OverviewRule;
    CategoryPrecedence(question, context, 7);
  }

  /** The extractor runs only when no category fires, in particular only
      when none of "about", "tell me", "information" occurs in the
      question. */
  lemma ExtractorWhenNoCategory(question: string, context: string)
    requires forall j :: 0 <= j < |Rules| ==> !Fires(Rules[j], Lower(question), Lower(context))
    ensures ContextualResponse(question, context) == ExtractedAnswer(Lower(question), context)
  {
    ChainIsRuleTable(question, context);
    FirstMatchNone(Rules, Lower(question), Lower(context), ExtractedAnswer(Lower(question), context));
  }

  /* ---------------- the route ---------------- */

  /** The outcome of the single completion-service call: its text, or a
      failure of any kind (network, quota, malformed reply). */
  datatype Completion = Completed(text: string) | Failed

  /** The route's JSON reply: a 400 `{ error }` or `{ response }`. */
  datatype ChatReply = BadRequest(error: string) | Answered(response: string)

  /** `POST(request)` for the body field `message`, the stored content read
      at call time, and the outcome the completion service would have. */
  function Post(message: Field, content: string, completion: Completion): (r: ChatReply)
    ensures r.BadRequest? <==> !IsNonEmptyString(message)
    ensures r.BadRequest? ==> r.error == MessageRequired
  {
    if !IsNonEmptyString(message) then BadRequest(MessageRequired)
    else
      var question := Trim(message.value);
      if !IsSchoolRelated(question, content) then Answered(OffTopicReply)
      else match completion
        case Completed(text) => Answered(text)
        case Failed => Answered(ContextualResponse(Lower(question), content))
  }

  /** Off-topic questions get the fixed redirect, and the reply does not
      depend on the completion outcome: neither the service nor the
      responder is consulted. */
  lemma OffTopicShortCircuits(message: Field, content: string, c1: Completion, c2: Completion)
    requires IsNonEmptyString(message) && !IsSchoolRelated(Trim(message.value), content)
    ensures Post(message, content, c1) == Post(message, content, c2) == Answered(OffTopicReply)
  {
  }

  /** No non-empty needle occurs in the empty question. */
  lemma {:induction false} NothingInEmpty(needles: seq<string>)
    requires forall k :: 0 <= k < |needles| ==> needles[k] != ""
    ensures !ContainsAny("", needles)
    decreases |needles|
  {
    if needles != [] {
      NothingInEmpty(needles[1..]);
    }
  }

  /** No category fires for the empty question: every trigger is
      non-empty. */
  lemma NoRuleFiresOnEmpty(lc: string)
    ensures forall j :: 0 <= j < |Rules| ==> !Fires(Rules[j], "", lc)
  {
    forall j | 0 <= j < |Rules| ensures !Fires(Rules[j], "", lc) {
      var rule := Rules[j];
      assert rule in Rules;
      assert forall k :: 0 <= k < |rule.triggers| ==> rule.triggers[k] != "";
      NothingInEmpty(rule.triggers);
    }
  }

  /** A question with no word longer than three characters finds no
      relevant sentence. */
  lemma {:induction false} ShortWordsFindNothing(sentences: seq<string>, words: seq<string>)
    requires forall w :: w in words ==> |w| <= 3
    ensures RelevantSentences(sentences, words) == []
    decreases |sentences|
  {
    if sentences != [] {
      assert !IsRelevant(sentences[0], words);
      ShortWordsFindNothing(sentences[1..], words);
    }
  }

  /** The empty question splits into the single word "", so no sentence is
      relevant to it. */
  lemma EmptyQuestionFindsNothing(context: string)
    ensures Relevant("", context) == []
  {
    SplitEmpty(" ");
    ShortWordsFindNothing(Split(context, ". "), [""]);
  }

  /** The responder answers the empty question with the "more specific
      question" reply: no trigger occurs in it and nothing is extracted. */
  lemma EmptyQuestionAnswer(context: string)
    ensures ContextualResponse("", context) == MoreSpecificAnswer
  {
    NoRuleFiresOnEmpty(Lower(context));
    assert Lower("") == "";
    ExtractorWhenNoCategory("", context);
    EmptyQuestionFindsNothing(context);
  }

  /** A message of white space only passes the message check and then the
      gate, because it trims to the empty question; when the completion
      call fails, the reply asks for a more specific question. */
  lemma BlankMessagePasses(s: string, content: string)
    requires s != "" && AllSpace(s)
    ensures IsNonEmptyString(Str(s)) && IsSchoolRelated(Trim(s), content)
    ensures Post(Str(s), content, Failed) == Answered(MoreSpecificAnswer)
  {
    EmptyQuestionPasses(content);
    assert Lower(Trim(s)) == "";
    EmptyQuestionAnswer(content);
  }

  /** A failed completion call never fails the request: an in-scope
      question is answered by the responder on the lower-cased trimmed
      question, with a non-empty text. */
  lemma FailureFallsBack(message: Field, content: string)
    requires IsNonEmptyString(message) && IsSchoolRelated(Trim(message.value), content)
    ensures Post(message, content, Failed) ==
      Answered(ContextualResponse(Lower(Trim(message.value)), content))
    ensures |Post(message, content, Failed).response| > 0
  {
  }

  /** An in-scope question with a successful completion call gets the
      service's text back unchanged. */
  lemma CompletionTextIsReply(message: Field, content: string, text: string)
    requires IsNonEmptyString(message) && IsSchoolRelated(Trim(message.value), content)
    ensures Post(message, content, Completed(text)) == Answered(text)
  {
  }

  /** The route as it runs against the store: it reads the current record
      (`getSchoolData()`) and changes nothing. */
  method Handle(store: Store, message: Field, completion: Completion) returns (r: ChatReply)
    ensures r == Post(message, store.data.content, completion)
  {
    var data := store.Get();
    r := Post(message, data.content, completion);
  }
}
