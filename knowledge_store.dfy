/**
 * The knowledge store and request handlers of `Chatbotai.py`: the category
 * table built once at start-up, the flat corpus searched by similarity, the
 * similarity index fitted over the corpus, and the persisted file, with the
 * `/chat`, `/categories`, `/questions` and `/answer` handlers over them.
 *
 * The index is abstracted to the sequence of questions it was fitted from:
 * what matters here is that it is refitted over the whole corpus after every
 * change, one entry per row, entry i from row i. The similarity of a query to
 * the indexed rows is a parameter, `score`: given the index and a query, it
 * gives one score per index entry.
 */
module KnowledgeStore {
  import opened Wrappers
  import opened CategoryTable
  import opened Responder

  /** The JSON reply of a successful `/chat`: the message and the reply to it. */
  datatype Exchange = Exchange(user: string, ai: string)

  /** Fitting the index over the corpus: one entry per row, entry i from row i's question. */
  function FitIndex(corpus: seq<Row>): (index: seq<string>)
    ensures |index| == |corpus|
    ensures forall i :: 0 <= i < |corpus| ==> index[i] == corpus[i].question
  {
    seq(|corpus|, i requires 0 <= i < |corpus| => corpus[i].question)
  }

  /**
   * The corpus at start-up: the secondary dataset's rows followed by the rows
   * of the persisted file, when the file exists.
   */
  function InitialCorpus(seed: seq<Row>, stored: Option<seq<Row>>): (corpus: seq<Row>)
    ensures |corpus| == |seed| + |stored.GetOr([])|
    ensures corpus[..|seed|] == seed && corpus[|seed|..] == stored.GetOr([])
  {
    seed + stored.GetOr([])
  }

  /**
   * The file is rewritten with the whole corpus, secondary rows included, so a
   * restart after a change loads the secondary rows twice, followed by the
   * corpus as it stood, last row included.
   */
  lemma RestartAfterWrite(seed: seq<Row>, corpus: seq<Row>)
    requires |corpus| >= |seed| && corpus[..|seed|] == seed
    ensures var reloaded := InitialCorpus(seed, Some(corpus));
            |reloaded| == |seed| + |corpus| &&
            reloaded[..|seed|] == seed && reloaded[|seed|..2 * |seed|] == seed &&
            reloaded[|seed|..] == corpus
  {
  }

  class Store {
    /** The category names of the table, in insertion order. */
    var categories: seq<string>
    /** The records of each category. */
    var table: map<string, seq<QA>>
    /** The flat corpus searched by similarity. */
    var corpus: seq<Row>
    /** The similarity index: what it was last fitted from. */
    var index: seq<string>
    /** The persisted file's contents; `None` while no file exists. */
    var snapshot: Option<seq<Row>>

    ghost predicate Valid()
      reads this
    {
      && Distinct(categories)
      && (forall k :: k in table <==> k in categories)
      && |corpus| > 0
      && index == FitIndex(corpus)
    }

    /**
     * Start-up: groups the primary dataset into the category table, and seeds
     * the corpus with the secondary dataset and the persisted file. The
     * vectorizer refuses an empty corpus, so the service does not start
     * without at least one row.
     */
    constructor (primary: seq<SourceRow>, seed: seq<Row>, stored: Option<seq<Row>>)
      requires |seed| + |stored.GetOr([])| > 0
      ensures Valid()
      ensures categories == FirstOccurrences(CategoriesOf(primary))
      ensures forall k :: k in table ==> table[k] == Bucket(primary, k)
      ensures corpus == InitialCorpus(seed, stored)
      ensures snapshot == stored
    {
      var keys, grouped := GroupByCategory(primary);
      FirstOccurrencesSpec(CategoriesOf(primary));
      categories := keys;
      table := grouped;
      corpus := InitialCorpus(seed, stored);
      index := FitIndex(InitialCorpus(seed, stored));
      snapshot := stored;
    }

    /**
     * `update_knowledge`: appends the row (q, a) to the corpus, refits the
     * index over the whole corpus and rewrites the file with it.
     */
    method UpdateKnowledge(q: string, a: string)
      requires Valid()
      modifies this
      ensures Valid()
      ensures corpus == old(corpus) + [Row(q, a)]
      ensures |index| == |corpus| && index == FitIndex(corpus)
      ensures snapshot == Some(corpus)
      ensures categories == old(categories) && table == old(table)
    {
      corpus := corpus + [Row(q, a)];
      index := FitIndex(corpus);
      snapshot := Some(corpus);
    }

    /**
     * `/chat`: a missing or empty message is refused and changes nothing;
     * otherwise the reply is computed from the corpus as it stands and the
     * exchange is learned, whatever the reply was.
     */
    method Chat(message: Option<string>, score: seq<string> -> string -> seq<real>) returns (r: Result<Exchange>)
      requires Valid()
      requires forall ix, q :: |score(ix)(q)| == |ix|
      modifies this
      ensures Valid()
      ensures categories == old(categories) && table == old(table)
      ensures message.GetOr("") == "" ==>
                r == Err(MissingMessage) && corpus == old(corpus) &&
                index == old(index) && snapshot == old(snapshot)
      ensures message.GetOr("") != "" ==>
                var reply := Respond(message.value, score(old(index)), old(corpus));
                r == Ok(Exchange(message.value, reply)) &&
                corpus == old(corpus) + [Row(message.value, reply)] &&
                snapshot == Some(corpus)
    {
      var userInput := message.GetOr("");
      if userInput == "" {
        return Err(MissingMessage);
      }
      var aiResponse := Respond(userInput, score(index), corpus);
      UpdateKnowledge(userInput, aiResponse);
      r := Ok(Exchange(userInput, aiResponse));
    }

    /** `/categories`: the category names, each once, in insertion order. */
    function CategoryNames(): (names: seq<string>)
      reads this
      requires Valid()
      ensures names == categories
      ensures Distinct(names)
      ensures forall k :: k in names <==> k in table
    {
      categories
    }

    /**
     * `/questions`: the records of the requested category; a missing, empty
     * or unknown category is refused.
     */
    function Questions(category: Option<string>): (r: Result<seq<QA>>)
      reads this
      requires Valid()
      ensures r.Ok? <==> category.Some? && category.value != "" && category.value in categories
      ensures r.Ok? ==> r.value == table[category.value]
      ensures r.Err? ==> r.error == InvalidCategory
    {
      if category == None || category.value == "" || category.value !in table then
        Err(InvalidCategory)
      else
        Ok(table[category.value])
    }

    /**
     * `/answer`: the answer of the first record, category by category and
     * row by row, whose question equals the requested one exactly (a missing
     * question reads as ""); not found when there is none.
     */
    method FindAnswer(question: Option<string>) returns (r: Result<QA>)
      requires Valid()
      ensures var q := question.GetOr("");
              match FirstMatch(Flatten(categories, table), q)
              case Some(a) => r == Ok(QA(q, a))
              case None => r == Err(QuestionNotFound)
      ensures r.Err? <==> forall k, x :: k in table && x in table[k] ==> x.question != question.GetOr("")
    {
      var q := question.GetOr("");
      ghost var all := Flatten(categories, table);
      var i := 0;
      while i < |categories|
        invariant 0 <= i <= |categories|
        invariant FirstMatch(all, q) == FirstMatch(Flatten(categories[i..], table), q)
      {
        var catQuestions := table[categories[i]];
        ghost var rest := Flatten(categories[i + 1..], table);
        FlattenStep(categories, table, i);
        var j := 0;
        while j < |catQuestions|
          invariant 0 <= j <= |catQuestions|
          invariant FirstMatch(all, q) == FirstMatch(catQuestions[j..] + rest, q)
        {
          var qa := catQuestions[j];
          FirstMatchStep(catQuestions, j, rest, q);
          if qa.question == q {
            assert qa in table[categories[i]];
            return Ok(QA(q, qa.answer));
          }
          j := j + 1;
        }
        assert catQuestions[j..] + rest == rest;
        i := i + 1;
      }
      assert categories[i..] == [];
      NoMatchAnywhere(categories, table, q);
      return Err(QuestionNotFound);
    }
  }

  /**
   * A fresh service asked "hi there" replies with the greeting, and a restart
   * afterwards finds the exchange as the last row of its corpus.
   */
  method GreetingScenario(primary: seq<SourceRow>, seed: seq<Row>, stored: Option<seq<Row>>,
                          score: seq<string> -> string -> seq<real>)
    returns (r: Result<Exchange>, reloaded: seq<Row>)
    requires |seed| + |stored.GetOr([])| > 0
    requires forall ix, q :: |score(ix)(q)| == |ix|
    ensures r == Ok(Exchange("hi there", GreetingReply))
    ensures |reloaded| == 2 * |seed| + |stored.GetOr([])| + 1
    ensures reloaded[|reloaded| - 1] == Row("hi there", GreetingReply)
  {
    var store := new Store(primary, seed, stored);
    HiThereIsGreeting(score(store.index), store.corpus);
    r := store.Chat(Some("hi there"), score);
    reloaded := InitialCorpus(seed, store.snapshot);
  }
}
