/**
 * Question selection (`selectQuestion`): the number of players still in the
 * game picks one of four tiers of the question bank, and a random index picks
 * a question of that tier.
 */
module Questions {
  import opened Wrappers

  /** The four tiers, from the broadest questions to the tie-breakers. */
  datatype Tier = Broad | Medium | Narrow | Final

  /** Breadth rank of a tier: 3 for the broadest, 0 for the final tier. */
  function Rank(t: Tier): nat {
    match t
    case Broad => 3
    case Medium => 2
    case Narrow => 1
    case Final => 0
  }

  /**
   * The `questions` arrays of the four tiers of the loaded bank; `None` where
   * a tier or its `questions` array is missing.
   */
  datatype QuestionBank = QuestionBank(
    broad: Option<seq<string>>,
    medium: Option<seq<string>>,
    narrow: Option<seq<string>>,
    final: Option<seq<string>>)

  /** The bank the server uses when its questions file cannot be read. */
  const DefaultBank := QuestionBank(
    Some(["Name a fruit", "Name a color", "Name a country"]),
    Some(["Name a vegetable", "Name an animal", "Name a city"]),
    Some(["Name a number 1-10", "Pick heads or tails", "Choose left or right"]),
    Some(["Pick 0 or 1", "Even or Odd", "Yes or No"]))

  /**
   * The tier for a number of active players: at least 10 gets the broad tier,
   * at least 5 the medium one, at least 3 the narrow one, fewer the final one.
   */
  function TierFor(playerCount: int): (t: Tier)
    ensures Rank(t) == 3 <==> playerCount >= 10
    ensures Rank(t) >= 2 <==> playerCount >= 5
    ensures Rank(t) >= 1 <==> playerCount >= 3
  {
    if playerCount >= 10 then Broad
    else if playerCount >= 5 then Medium
    else if playerCount >= 3 then Narrow
    else Final
  }

  /** More players never get a narrower tier. */
  lemma TierMonotone(a: int, b: int)
    requires a <= b
    ensures Rank(TierFor(a)) <= Rank(TierFor(b))
  {
  }

  /**
   * The questions of tier `t`: the bank's array when present (even an empty
   * one, which is still truthy), else the one-question fallback of that tier.
   */
  function TierQuestions(bank: QuestionBank, t: Tier): seq<string> {
    match t
    case Broad => bank.broad.GetOr(["Name a fruit."])
    case Medium => bank.medium.GetOr(["Name a color."])
    case Narrow => bank.narrow.GetOr(["Pick 0 or 1."])
    case Final => bank.final.GetOr(["Even or Odd."])
  }

  /**
   * `selectQuestion(playerCount)`: `pick` stands for the random draw, reduced
   * to an index of the chosen tier. An empty tier yields no question (the
   * source reads `undefined`).
   */
  function SelectQuestion(bank: QuestionBank, playerCount: int, pick: nat): (q: Option<string>)
    ensures var qs := TierQuestions(bank, TierFor(playerCount));
      && (q.Some? <==> qs != [])
      && (q.Some? ==> q.value in qs)
  {
    var qs := TierQuestions(bank, TierFor(playerCount));
    if qs == [] then None else Some(qs[pick % |qs|])
  }

  /** Every question of the chosen tier is drawn by some pick. */
  lemma {:induction false} EveryQuestionReachable(bank: QuestionBank, playerCount: int, q: string)
    requires q in TierQuestions(bank, TierFor(playerCount))
    ensures exists pick: nat :: SelectQuestion(bank, playerCount, pick) == Some(q)
  {
    var qs := TierQuestions(bank, TierFor(playerCount));
    var k :| 0 <= k < |qs| && qs[k] == q;
    assert k % |qs| == k;
    assert SelectQuestion(bank, playerCount, k) == Some(q);
  }

  /** A missing tier falls back to a non-empty list, so a question is always drawn. */
  lemma {:induction false} FallbackAlwaysAsks(bank: QuestionBank, playerCount: int, pick: nat)
    requires bank.broad.None? && bank.medium.None? && bank.narrow.None? && bank.final.None?
    ensures SelectQuestion(bank, playerCount, pick).Some?
  {
    assert TierQuestions(bank, TierFor(playerCount)) != [];
  }

  /**
   * The built-in bank draws a question for every player count: each of its
   * tiers holds three questions, and two players get a tie-breaker.
   */
  lemma DefaultBankAsks(playerCount: int, pick: nat)
    ensures |TierQuestions(DefaultBank, TierFor(playerCount))| == 3
    ensures SelectQuestion(DefaultBank, playerCount, pick).Some?
    ensures playerCount < 3 ==>
      SelectQuestion(DefaultBank, playerCount, pick).value in ["Pick 0 or 1", "Even or Odd", "Yes or No"]
  {
  }
}
