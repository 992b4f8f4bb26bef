/**
 * `getResult` of the quiz: resolve every answer text to a style, tally the
 * styles, take the dominant one and look its record up, falling back to the
 * Contemporary record.
 */
module QuizScoring {
  import opened Wrappers
  import opened Tally
  import opened QuizData

  /** `opts.find(opt => opt.text === answer)`, as a position. */
  function FindOption(opts: seq<QuizOption>, answer: string): (r: Option<nat>)
    ensures r.Some? ==> (r.value < |opts| && opts[r.value].text == answer &&
      forall k :: 0 <= k < r.value ==> opts[k].text != answer)
    ensures r.None? ==> forall k :: 0 <= k < |opts| ==> opts[k].text != answer
  {
    if |opts| == 0 then None
    else if opts[0].text == answer then Some(0)
    else match FindOption(opts[1..], answer)
      case None => None
      case Some(k) => Some(k + 1)
  }

  /**
   * `questions.flat().find(q => q.options?.some(opt => opt.text === answer))`,
   * as a position: the first question offering an option with that text.
   * (`flat` leaves an array of question objects as it is.)
   */
  function FindQuestion(qs: seq<Question>, answer: string): (r: Option<nat>)
    ensures r.Some? ==> (r.value < |qs| && FindOption(qs[r.value].options, answer).Some? &&
      forall k :: 0 <= k < r.value ==> FindOption(qs[k].options, answer).None?)
    ensures r.None? ==> forall k :: 0 <= k < |qs| ==> FindOption(qs[k].options, answer).None?
  {
    if |qs| == 0 then None
    else if FindOption(qs[0].options, answer).Some? then Some(0)
    else match FindQuestion(qs[1..], answer)
      case None => None
      case Some(k) => Some(k + 1)
  }

  /** Some question of `qs` lists `opt` among its options. */
  ghost predicate Offers(qs: seq<Question>, opt: QuizOption) {
    exists q, o :: 0 <= q < |qs| && 0 <= o < |qs[q].options| && qs[q].options[o] == opt
  }

  /** Some option of some question of `qs` displays `text`. */
  ghost predicate OffersText(qs: seq<Question>, text: string) {
    exists q, o :: 0 <= q < |qs| && 0 <= o < |qs[q].options| && qs[q].options[o].text == text
  }

  /**
   * The style an answer text votes for: the style of the first matching option
   * of the first matching question. An answer no option carries, and an option
   * whose style is the empty string (falsy in `if (style)`), vote for nothing.
   * A resolved style is the non-empty style of an option carrying the answer.
   */
  function Resolve(qs: seq<Question>, answer: string): (r: Option<string>)
    ensures r.Some? ==> r.value != "" && Offers(qs, QuizOption(answer, r.value))
    ensures !OffersText(qs, answer) ==> r.None?
  {
    match FindQuestion(qs, answer)
    case None => None
    case Some(q) =>
      match FindOption(qs[q].options, answer)
      case None => None
      case Some(o) =>
        var style := qs[q].options[o].style;
        assert qs[q].options[o] == QuizOption(answer, style);
        if style == "" then None else Some(style)
  }

  /** On the shipped table every option text resolves to its own option's style. */
  lemma ResolveShipped(q: nat, o: nat)
    requires q < |Questions| && o < |Questions[q].options|
    ensures Resolve(Questions, OptionAt(q, o).text) == Some(OptionAt(q, o).style)
  {
    var a := OptionAt(q, o).text;
    var fq := FindQuestion(Questions, a);
    assert FindOption(Questions[q].options, a).Some?;
    var q' := fq.value;
    var o' := FindOption(Questions[q'].options, a).value;
    if (q', o') != (q, o) {
      OptionTextsDistinct(q, o, q', o');
    }
  }

  /**
   * On the shipped table resolution is unambiguous: an answer resolves to a
   * style exactly when some option carries that text and that style.
   */
  lemma ResolveShippedIff(answer: string, style: string)
    ensures Resolve(Questions, answer) == Some(style) <==>
      exists q, o :: 0 <= q < |Questions| && 0 <= o < |Questions[q].options| &&
        OptionAt(q, o) == QuizOption(answer, style)
  {
    if r :| r == Resolve(Questions, answer) && r.Some? {
      var q, o :| 0 <= q < |Questions| && 0 <= o < |Questions[q].options| &&
        Questions[q].options[o] == QuizOption(answer, r.value);
      ResolveShipped(q, o);
    }
    if exists q, o :: 0 <= q < |Questions| && 0 <= o < |Questions[q].options| &&
        OptionAt(q, o) == QuizOption(answer, style) {
      var q, o :| 0 <= q < |Questions| && 0 <= o < |Questions[q].options| &&
        OptionAt(q, o) == QuizOption(answer, style);
      ResolveShipped(q, o);
    }
  }

  /**
   * The styles the answers vote for, in answer order; non-resolving answers
   * are skipped. Each style occurs once per answer voting for it, and when
   * every answer resolves the styles line up with the answers.
   */
  function ResolvedStyles(qs: seq<Question>, answers: seq<string>): (ss: seq<string>)
    ensures |ss| == Resolvable(qs, answers) <= |answers|
    ensures forall s :: multiset(ss)[s] == VotesFor(qs, answers, s)
    ensures (forall i :: 0 <= i < |answers| ==> Resolve(qs, answers[i]).Some?) ==>
      |ss| == |answers| && forall i :: 0 <= i < |answers| ==> Resolve(qs, answers[i]) == Some(ss[i])
  {
    if |answers| == 0 then []
    else
      var init, last := answers[..|answers| - 1], answers[|answers| - 1];
      var rest := ResolvedStyles(qs, init);
      SplitLast(answers);
      StylesOfSnoc(qs, init, last, rest);
      SnocStyle(qs, rest, last)
  }

  /** A non-empty sequence is its prefix with its last element appended. */
  lemma SplitLast<T>(xs: seq<T>)
    requires |xs| > 0
    ensures xs == xs[..|xs| - 1] + [xs[|xs| - 1]]
  {
  }

  /** The styles after one more answer: its style, if it has one, appended. */
  function SnocStyle(qs: seq<Question>, rest: seq<string>, last: string): seq<string> {
    match Resolve(qs, last)
    case None => rest
    case Some(s) => rest + [s]
  }

  lemma StylesOfSnoc(qs: seq<Question>, init: seq<string>, last: string, rest: seq<string>)
    requires |rest| == Resolvable(qs, init) <= |init|
    requires forall s :: multiset(rest)[s] == VotesFor(qs, init, s)
    requires (forall i :: 0 <= i < |init| ==> Resolve(qs, init[i]).Some?) ==>
      |rest| == |init| && forall i :: 0 <= i < |init| ==> Resolve(qs, init[i]) == Some(rest[i])
    ensures |SnocStyle(qs, rest, last)| == Resolvable(qs, init + [last]) <= |init + [last]|
    ensures forall s :: multiset(SnocStyle(qs, rest, last))[s] == VotesFor(qs, init + [last], s)
    ensures (forall i :: 0 <= i < |init + [last]| ==> Resolve(qs, (init + [last])[i]).Some?) ==>
      |SnocStyle(qs, rest, last)| == |init + [last]| &&
      forall i :: 0 <= i < |init + [last]| ==> Resolve(qs, (init + [last])[i]) == Some(SnocStyle(qs, rest, last)[i])
  {
    VotesForAppendAll(qs, init, last);
    SnocMultiset(qs, rest, last);
    SnocAligned(qs, init, last, rest);
  }

  lemma SnocMultiset(qs: seq<Question>, rest: seq<string>, last: string)
    ensures forall x :: (multiset(SnocStyle(qs, rest, last))[x] ==
      multiset(rest)[x] + (if Resolve(qs, last) == Some(x) then 1 else 0))
    ensures |SnocStyle(qs, rest, last)| == |rest| + (if Resolve(qs, last).Some? then 1 else 0)
  {
  }

  lemma SnocAligned(qs: seq<Question>, init: seq<string>, last: string, rest: seq<string>)
    requires (forall i :: 0 <= i < |init| ==> Resolve(qs, init[i]).Some?) ==>
      |rest| == |init| && forall i :: 0 <= i < |init| ==> Resolve(qs, init[i]) == Some(rest[i])
    ensures (forall i :: 0 <= i < |init + [last]| ==> Resolve(qs, (init + [last])[i]).Some?) ==>
      |SnocStyle(qs, rest, last)| == |init + [last]| &&
      forall i :: 0 <= i < |init + [last]| ==> Resolve(qs, (init + [last])[i]) == Some(SnocStyle(qs, rest, last)[i])
  {
    var answers := init + [last];
    if forall i :: 0 <= i < |answers| ==> Resolve(qs, answers[i]).Some? {
      assert forall i :: 0 <= i < |init| ==> answers[i] == init[i];
      assert answers[|init|] == last;
      var ss := SnocStyle(qs, rest, last);
      assert ss == rest + [Resolve(qs, last).value];
      forall i | 0 <= i < |answers|
        ensures Resolve(qs, answers[i]) == Some(ss[i])
      {
        if i < |init| {
          assert ss[i] == rest[i];
        }
      }
    }
  }

  /**
   * `styleCount` after the `forEach` over the answers: each style's count is
   * the number of answers resolving to it, a style no answer resolves to is
   * absent, and the counts add up to the number of resolvable answers.
   */
  function CountStyles(qs: seq<Question>, answers: seq<string>): (t: Tally)
    ensures forall s :: CountOf(t, s) == VotesFor(qs, answers, s)
    ensures forall s :: s in Keys(t) <==> VotesFor(qs, answers, s) > 0
    ensures Total(t) == Resolvable(qs, answers)
  {
    var ss := ResolvedStyles(qs, answers);
    var t := TallyOf(ss);
    assert forall s :: s in ss <==> multiset(ss)[s] > 0;
    t
  }

  /**
   * When every answer resolves, the tally of `forEach` is the tally of the
   * answers' styles, and its keys come in the order in which the answers
   * first vote for them: the key order that the tie-break of `reduce` reads.
   */
  lemma CountStylesOrder(qs: seq<Question>, answers: seq<string>, ss: seq<string>)
    requires |ss| == |answers|
    requires forall i :: 0 <= i < |answers| ==> Resolve(qs, answers[i]) == Some(ss[i])
    ensures CountStyles(qs, answers) == TallyOf(ss)
    ensures forall i, j :: 0 <= i < j < |TallyOf(ss)| ==>
      FirstIndex(ss, TallyOf(ss)[i].0) < FirstIndex(ss, TallyOf(ss)[j].0)
  {
    ResolvedStylesAligned(qs, answers, ss);
    TallyFirstOccurrenceOrder(ss);
  }

  /** The number of answers that resolve to `style`. */
  function VotesFor(qs: seq<Question>, answers: seq<string>, style: string): nat {
    if |answers| == 0 then 0
    else VotesFor(qs, answers[1..], style) + (if Resolve(qs, answers[0]) == Some(style) then 1 else 0)
  }

  /** The number of answers that resolve to some style. */
  function Resolvable(qs: seq<Question>, answers: seq<string>): nat {
    if |answers| == 0 then 0
    else Resolvable(qs, answers[1..]) + (if Resolve(qs, answers[0]).Some? then 1 else 0)
  }

  lemma {:induction false} VotesForAppend(qs: seq<Question>, answers: seq<string>, a: string, style: string)
    ensures VotesFor(qs, answers + [a], style) ==
      VotesFor(qs, answers, style) + (if Resolve(qs, a) == Some(style) then 1 else 0)
    ensures Resolvable(qs, answers + [a]) ==
      Resolvable(qs, answers) + (if Resolve(qs, a).Some? then 1 else 0)
  {
    if |answers| > 0 {
      assert (answers + [a])[1..] == answers[1..] + [a];
      VotesForAppend(qs, answers[1..], a, style);
    }
  }

  /** `VotesForAppend` for every style at once. */
  lemma VotesForAppendAll(qs: seq<Question>, answers: seq<string>, a: string)
    ensures forall style :: (VotesFor(qs, answers + [a], style) ==
      VotesFor(qs, answers, style) + (if Resolve(qs, a) == Some(style) then 1 else 0))
    ensures Resolvable(qs, answers + [a]) ==
      Resolvable(qs, answers) + (if Resolve(qs, a).Some? then 1 else 0)
  {
    VotesForAppend(qs, answers, a, "");
    forall style {
      VotesForAppend(qs, answers, a, style);
    }
  }

  /** The exception the reduce throws on an empty key list. */
  datatype QuizError = EmptyTally

  /** The first record stored under `key`. */
  function Lookup(table: seq<(string, StyleResult)>, key: string): (r: Option<StyleResult>)
    ensures r.Some? <==> exists i :: 0 <= i < |table| && table[i].0 == key
    ensures r.Some? ==> exists i :: 0 <= i < |table| && table[i] == (key, r.value)
  {
    if |table| == 0 then None
    else if table[0].0 == key then Some(table[0].1)
    else Lookup(table[1..], key)
  }

  /** The result table's keys name distinct records. */
  lemma LookupResults(style: string)
    ensures Lookup(Results, style) ==
      if style == "Minimalist" then Some(ModernMinimalist)
      else if style == "Bohemian" then Some(BohemianFreeSpirit)
      else if style == "Contemporary" then Some(ContemporarySophisticate)
      else if style == "Industrial" then Some(IndustrialUrbanDweller)
      else None
  {
    assert Results[0].0 == "Minimalist" && Results[1].0 == "Bohemian";
    assert Results[2].0 == "Contemporary" && Results[3].0 == "Industrial";
  }

  /**
   * `results[style] || results['Contemporary']`: the record stored under the
   * style, or the Contemporary record when the table has no such key.
   */
  function ResultFor(style: string): (r: StyleResult)
    ensures style == "Minimalist" ==> r == ModernMinimalist
    ensures style == "Bohemian" ==> r == BohemianFreeSpirit
    ensures style == "Industrial" ==> r == IndustrialUrbanDweller
    ensures style != "Minimalist" && style != "Bohemian" && style != "Industrial" ==> r == ContemporarySophisticate
  {
    LookupResults(style);
    match Lookup(Results, style)
    case Some(rec) => rec
    case None => ContemporarySophisticate
  }


  /**
   * `getResult`: fails exactly when no answer resolves to a style (the reduce
   * over no keys throws); otherwise the record of the dominant style, the
   * last-listed style of largest count.
   */
  function GetResult(answers: seq<string>): (r: Result<StyleResult, QuizError>)
    ensures r.Failure? <==> Resolvable(Questions, answers) == 0
    ensures r.Success? ==> exists s :: IsLastMaximum(CountStyles(Questions, answers), s) && r.value == ResultFor(s)
  {
    var t := CountStyles(Questions, answers);
    EmptyTallyIff(answers);
    if |t| == 0 then Failure(EmptyTally)
    else
      DominantOfAnswers(answers);
      Success(ResultFor(Dominant(t)))
  }

  lemma EmptyTallyIff(answers: seq<string>)
    ensures |CountStyles(Questions, answers)| == 0 <==> Resolvable(Questions, answers) == 0
  {
    var t := CountStyles(Questions, answers);
    assert |t| > 0 ==> Total(t) >= t[0].1 > 0;
  }

  lemma DominantOfAnswers(answers: seq<string>)
    requires |CountStyles(Questions, answers)| > 0
    ensures IsLastMaximum(CountStyles(Questions, answers), Dominant(CountStyles(Questions, answers)))
  {
    TallyDistinct(ResolvedStyles(Questions, answers));
  }

  /** When every answer resolves, the resolved styles line up with the answers. */
  lemma ResolvedStylesAligned(qs: seq<Question>, answers: seq<string>, ss: seq<string>)
    requires |ss| == |answers|
    requires forall i :: 0 <= i < |answers| ==> Resolve(qs, answers[i]) == Some(ss[i])
    ensures ResolvedStyles(qs, answers) == ss
  {
    var r := ResolvedStyles(qs, answers);
    assert forall i :: 0 <= i < |answers| ==> Resolve(qs, answers[i]).Some?;
    forall i | 0 <= i < |r|
      ensures r[i] == ss[i]
    {
      assert Resolve(qs, answers[i]) == Some(r[i]);
    }
  }


  /** `answer` is the text of one of the options of question `q`. */
  predicate OfferedAt(q: nat, answer: string) {
    q < |Questions| &&
    exists o :: 0 <= o < |Questions[q].options| && Questions[q].options[o].text == answer
  }

  /** The answer at position `i` is the text of one of question `i`'s options. */
  predicate AnswersOffered(answers: seq<string>) {
    |answers| <= |Questions| &&
    forall i :: 0 <= i < |answers| ==> OfferedAt(i, answers[i])
  }

  /** The option picked at each question of a completed quiz. */
  lemma PickedOptions(answers: seq<string>) returns (os: seq<nat>)
    requires AnswersOffered(answers) && |answers| == |Questions|
    ensures |os| == 5 && forall i :: 0 <= i < 5 ==> os[i] < 4 && answers[i] == OptionAt(i, os[i]).text
  {
    os := [];
    for i := 0 to 5
      invariant |os| == i
      invariant forall j :: 0 <= j < i ==> os[j] < 4 && answers[j] == OptionAt(j, os[j]).text
    {
      var o :| 0 <= o < |Questions[i].options| && Questions[i].options[o].text == answers[i];
      os := os + [o];
    }
  }

  /** The styles of the options picked at the five questions. */
  function PickedStyles(os: seq<nat>): (ss: seq<string>)
    requires |os| == 5 && forall i :: 0 <= i < 5 ==> os[i] < 4
    ensures |ss| == 5 && forall i :: 0 <= i < 5 ==> ss[i] == OptionAt(i, os[i]).style
  {
    seq(5, i requires 0 <= i < 5 => OptionAt(i, os[i]).style)
  }

  /** A completed quiz's answers resolve to the styles of the picked options. */
  lemma PickedResolve(answers: seq<string>, os: seq<nat>)
    requires |answers| == |os| == 5
    requires forall i :: 0 <= i < 5 ==> os[i] < 4 && answers[i] == OptionAt(i, os[i]).text
    ensures forall i :: 0 <= i < 5 ==> Resolve(Questions, answers[i]) == Some(PickedStyles(os)[i])
  {
    FourOptionsEach();
    forall i | 0 <= i < 5
      ensures Resolve(Questions, answers[i]) == Some(PickedStyles(os)[i])
    {
      ResolveShipped(i, os[i]);
    }
  }

  /**
   * The dominant style of five picked options: Bohemian or Contemporary when
   * one of them was picked twice, otherwise the style picked at the last
   * question, which wins the five-way tie.
   */
  lemma PickedDominant(os: seq<nat>)
    requires |os| == 5 && forall i :: 0 <= i < 5 ==> os[i] < 4
    ensures |TallyOf(PickedStyles(os))| > 0
    ensures os[0] == 1 && os[1] == 2 ==> Dominant(TallyOf(PickedStyles(os))) == "Bohemian"
    ensures os[0] == 2 && os[2] == 2 ==> Dominant(TallyOf(PickedStyles(os))) == "Contemporary"
    ensures !(os[0] == 1 && os[1] == 2) && !(os[0] == 2 && os[2] == 2) ==>
      Dominant(TallyOf(PickedStyles(os))) == OptionAt(4, os[4]).style
  {
    var xs := PickedStyles(os);
    forall i, j | 0 <= i < j < 5 && xs[i] == xs[j]
      ensures (i, os[i], j, os[j]) == (0, 1, 1, 2) || (i, os[i], j, os[j]) == (0, 2, 2, 2)
    {
      SharedStyles(i, os[i], j, os[j]);
    }
    if os[0] == 1 && os[1] == 2 {
      TwiceAmongFive(xs, 1);
      UniqueMaximumWins(xs, xs[0]);
    } else if os[0] == 2 && os[2] == 2 {
      TwiceAmongFive(xs, 2);
      UniqueMaximumWins(xs, xs[0]);
    } else {
      DistinctLastWins(xs);
    }
  }

  /** Both Bohemian options, of the first and the second question, were picked. */
  predicate PickedBohemianTwice(answers: seq<string>)
    requires |answers| >= 2
  {
    answers[0] == "Warm, layered, and eclectic" && answers[1] == "Earthy terracotta and sage"
  }

  lemma PickedBohemianTwiceIff(answers: seq<string>, os: seq<nat>)
    requires |answers| == |os| == 5
    requires forall i :: 0 <= i < 5 ==> os[i] < 4 && answers[i] == OptionAt(i, os[i]).text
    ensures PickedBohemianTwice(answers) <==> os[0] == 1 && os[1] == 2
  {

  }

  /** `getResult` computed from the styles the answers resolve to. */
  lemma GetResultFromStyles(answers: seq<string>, ss: seq<string>)
    requires |ss| == |answers| && |TallyOf(ss)| > 0
    requires forall i :: 0 <= i < |answers| ==> Resolve(Questions, answers[i]) == Some(ss[i])
    ensures GetResult(answers) == Success(ResultFor(Dominant(TallyOf(ss))))
  {
    ResolvedStylesAligned(Questions, answers, ss);
    EmptyTallyIff(answers);
  }

  /**
   * A quiz answered through its buttons can only end on two of the four
   * records: Bohemian exactly when both Bohemian options were picked, and
   * Contemporary otherwise, either by a Contemporary majority or because the
   * last question's style, which has no record, wins a five-way tie.
   */
  lemma CompletedQuizResult(answers: seq<string>)
    requires AnswersOffered(answers) && |answers| == |Questions|
    ensures PickedBohemianTwice(answers) ==> GetResult(answers) == Success(BohemianFreeSpirit)
    ensures !PickedBohemianTwice(answers) ==> GetResult(answers) == Success(ContemporarySophisticate)
  {
    var os := PickedOptions(answers);
    PickedResolve(answers, os);
    PickedResult(os);
    PickedBohemianTwiceIff(answers, os);
    GetResultFromStyles(answers, PickedStyles(os));
  }

  lemma PickedResult(os: seq<nat>)
    requires |os| == 5 && forall i :: 0 <= i < 5 ==> os[i] < 4
    ensures |TallyOf(PickedStyles(os))| > 0
    ensures os[0] == 1 && os[1] == 2 ==>
      ResultFor(Dominant(TallyOf(PickedStyles(os)))) == BohemianFreeSpirit
    ensures !(os[0] == 1 && os[1] == 2) ==>
      ResultFor(Dominant(TallyOf(PickedStyles(os)))) == ContemporarySophisticate
  {
    PickedDominant(os);
    if os[0] == 1 && os[1] == 2 {
      RecordOfStyle(Dominant(TallyOf(PickedStyles(os))), "Bohemian", BohemianFreeSpirit);
    } else if os[0] == 2 && os[2] == 2 {
      RecordOfStyle(Dominant(TallyOf(PickedStyles(os))), "Contemporary", ContemporarySophisticate);
    } else {
      TieGoesToLastQuestion(os[4], Dominant(TallyOf(PickedStyles(os))));
    }
  }

  lemma RecordOfStyle(d: string, style: string, rec: StyleResult)
    requires d == style
    requires (style, rec) == ("Bohemian", BohemianFreeSpirit) || (style, rec) == ("Contemporary", ContemporarySophisticate)
    ensures ResultFor(d) == rec
  {
  }

  lemma TieGoesToLastQuestion(o: nat, d: string)
    requires o < 4 && d == OptionAt(4, o).style
    ensures ResultFor(d) == ContemporarySophisticate
  {
    LastQuestionStylesUnrecorded(o);
  }

  /** In five styles where only positions 0 and `b` agree, that style is counted twice, the rest once. */
  lemma TwiceAmongFive(xs: seq<string>, b: nat)
    requires |xs| == 5 && 0 < b < 5 && xs[0] == xs[b]
    requires forall i, j :: 0 <= i < j < 5 && xs[i] == xs[j] ==> i == 0 && j == b
    ensures forall x :: x != xs[0] ==> multiset(xs)[x] < multiset(xs)[xs[0]]
  {
    assert xs == [xs[0], xs[1], xs[2], xs[3], xs[4]];
  }

  /** Answers given through the buttons all count: the tally adds up to the number of answers. */
  lemma OfferedAnswersAllCount(answers: seq<string>)
    requires AnswersOffered(answers)
    ensures Total(CountStyles(Questions, answers)) == |answers|
  {
    FourOptionsEach();
    forall i | 0 <= i < |answers|
      ensures Resolve(Questions, answers[i]).Some?
    {
      var o :| 0 <= o < |Questions[i].options| && Questions[i].options[o].text == answers[i];
      ResolveShipped(i, o);
    }
    AllResolvable(Questions, answers);
  }

  lemma {:induction false} AllResolvable(qs: seq<Question>, answers: seq<string>)
    requires forall i :: 0 <= i < |answers| ==> Resolve(qs, answers[i]).Some?
    ensures Resolvable(qs, answers) == |answers|
  {
    if |answers| > 0 {
      assert forall i :: 0 <= i < |answers| - 1 ==> answers[1..][i] == answers[i + 1];
      AllResolvable(qs, answers[1..]);
    }
  }

  /**
   * Five answers that each give a different style: every count is one, the
   * style of the last answer, Aesthetic, is dominant, and having no record
   * it falls back to the Contemporary one.
   */
  lemma FiveWayTieScenario(answers: seq<string>)
    requires answers == ["Clean, minimal, and serene", "Whites, grays, and natural wood",
      "Investment pieces that last forever", "Intimate dinner parties", "Beauty and aesthetics"]
    ensures forall s :: s in ["Minimalist", "Scandinavian", "Classic", "Elegant", "Aesthetic"] ==>
      CountOf(CountStyles(Questions, answers), s) == 1
    ensures |CountStyles(Questions, answers)| > 0 && Dominant(CountStyles(Questions, answers)) == "Aesthetic"
    ensures GetResult(answers) == Success(ContemporarySophisticate)
  {
    var ss := ["Minimalist", "Scandinavian", "Classic", "Elegant", "Aesthetic"];
    TieScenarioStyles(answers, ss);
    TieScenarioDistinct(ss);
    DistinctTie(answers, ss, 2);
  }

  lemma TieScenarioStyles(answers: seq<string>, ss: seq<string>)
    requires answers == ["Clean, minimal, and serene", "Whites, grays, and natural wood",
      "Investment pieces that last forever", "Intimate dinner parties", "Beauty and aesthetics"]
    requires ss == ["Minimalist", "Scandinavian", "Classic", "Elegant", "Aesthetic"]
    ensures |ss| == |answers| && ss[4] == OptionAt(4, 2).style
    ensures forall i :: 0 <= i < |answers| ==> Resolve(Questions, answers[i]) == Some(ss[i])
  {
    forall i | 0 <= i < 5
      ensures Resolve(Questions, answers[i]) == Some(ss[i])
    {
      if i == 0 { ResolveShipped(0, 0); }
      else if i == 1 { ResolveShipped(1, 0); }
      else if i == 2 { ResolveShipped(2, 0); }
      else if i == 3 { ResolveShipped(3, 0); }
      else { ResolveShipped(4, 2); }
    }
  }

  /**
   * Answers resolving to pairwise distinct styles, the last of them offered
   * by the last question: every style is counted once, the last one is
   * dominant, and the result is the Contemporary record.
   */
  lemma DistinctTie(answers: seq<string>, ss: seq<string>, o: nat)
    requires |ss| == |answers| == 5
    requires forall i :: 0 <= i < |answers| ==> Resolve(Questions, answers[i]) == Some(ss[i])
    requires forall i, j :: 0 <= i < j < |ss| ==> ss[i] != ss[j]
    requires o < 4 && ss[4] == OptionAt(4, o).style
    ensures forall s :: s in ss ==> CountOf(CountStyles(Questions, answers), s) == 1
    ensures |CountStyles(Questions, answers)| > 0 && Dominant(CountStyles(Questions, answers)) == ss[4]
    ensures GetResult(answers) == Success(ContemporarySophisticate)
  {
    ResolvedStylesAligned(Questions, answers, ss);
    DistinctLastWins(ss);
    DistinctCountsOne(ss);
    LastQuestionWinnerResult(answers, ss, o);
  }

  /**
   * Answers whose styles are dominated by a style of the last question end on
   * the Contemporary record.
   */
  lemma LastQuestionWinnerResult(answers: seq<string>, ss: seq<string>, o: nat)
    requires |ss| == |answers| && |TallyOf(ss)| > 0
    requires forall i :: 0 <= i < |answers| ==> Resolve(Questions, answers[i]) == Some(ss[i])
    requires o < 4 && Dominant(TallyOf(ss)) == OptionAt(4, o).style
    ensures GetResult(answers) == Success(ContemporarySophisticate)
  {
    GetResultFromStyles(answers, ss);
    TieGoesToLastQuestion(o, Dominant(TallyOf(ss)));
  }

  lemma DistinctCountsOne(ss: seq<string>)
    requires forall i, j :: 0 <= i < j < |ss| ==> ss[i] != ss[j]
    ensures forall s :: s in ss ==> CountOf(TallyOf(ss), s) == 1
  {
    forall s | s in ss
      ensures CountOf(TallyOf(ss), s) == 1
    {
      MultisetOfDistinct(ss, s);
    }
  }

  lemma TieScenarioDistinct(ss: seq<string>)
    requires ss == ["Minimalist", "Scandinavian", "Classic", "Elegant", "Aesthetic"]
    ensures forall i, j :: 0 <= i < j < |ss| ==> ss[i] != ss[j]
  {
    forall i, j | 0 <= i < j < 5
      ensures ss[i] != ss[j]
    {
      assert i == 0 || i == 1 || i == 2 || i == 3;
      assert j == 1 || j == 2 || j == 3 || j == 4;
    }
  }

  /**
   * Answers that all carry the same Bohemian option's text (nothing in
   * `handleAnswer` prevents repeats): the tally holds Bohemian alone, counted
   * once per answer, and the result is the Bohemian record.
   */
  lemma AllBohemianScenario(answers: seq<string>)
    requires |answers| > 0
    requires forall i :: 0 <= i < |answers| ==> answers[i] == "Warm, layered, and eclectic"
    ensures CountOf(CountStyles(Questions, answers), "Bohemian") == |answers|
    ensures forall s :: s != "Bohemian" ==> CountOf(CountStyles(Questions, answers), s) == 0
    ensures GetResult(answers) == Success(BohemianFreeSpirit)
  {
    var ss := seq(|answers|, i => "Bohemian");
    RepeatedOption(answers, 0, 1);
    UnanimousOutcome(answers, ss, "Bohemian");
    RecordOfStyle("Bohemian", "Bohemian", BohemianFreeSpirit);
  }

  /** Answers that all repeat one option's text each resolve to its style. */
  lemma RepeatedOption(answers: seq<string>, q: nat, o: nat)
    requires q < |Questions| && o < |Questions[q].options|
    requires forall i :: 0 <= i < |answers| ==> answers[i] == OptionAt(q, o).text
    ensures forall i :: 0 <= i < |answers| ==> Resolve(Questions, answers[i]) == Some(OptionAt(q, o).style)
  {
    ResolveShipped(q, o);
  }

  /** Answers that all resolve to one style count that style once each and end on its record. */
  lemma UnanimousOutcome(answers: seq<string>, ss: seq<string>, style: string)
    requires |ss| == |answers| > 0
    requires forall i :: 0 <= i < |answers| ==> Resolve(Questions, answers[i]) == Some(ss[i])
    requires forall i :: 0 <= i < |ss| ==> ss[i] == style
    ensures CountOf(CountStyles(Questions, answers), style) == |answers|
    ensures forall s :: s != style ==> CountOf(CountStyles(Questions, answers), s) == 0
    ensures GetResult(answers) == Success(ResultFor(style))
  {
    ResolvedStylesAligned(Questions, answers, ss);
    SameStyleCounts(ss, style);
    UniqueMaximumWins(ss, style);
    GetResultFromStyles(answers, ss);
  }

  lemma {:induction false} SameStyleCounts(ss: seq<string>, style: string)
    requires forall i :: 0 <= i < |ss| ==> ss[i] == style
    ensures multiset(ss)[style] == |ss|
    ensures forall s :: s != style ==> multiset(ss)[s] == 0
  {
    if |ss| > 0 {
      var init := ss[..|ss| - 1];
      assert ss == init + [style];
      SameStyleCounts(init, style);
    }
  }
}
