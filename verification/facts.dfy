/** The two record builders for a flashcard's fields (`buildFactMarkupExpression`, `buildFactMarkupReading`). */
module Facts {
  import opened Wrappers

  /** The markup dictionary with keys `expression`, `reading`, `glossary` and `sentence`. */
  datatype FactMarkup = FactMarkup(expression: string, reading: string, glossary: string, sentence: Option<string>)

  function BuildFactMarkupExpression(expression: string, reading: string, glossary: string,
                                     sentence: Option<string>): FactMarkup
  {
    FactMarkup(expression, reading, glossary, sentence)
  }

  function BuildFactMarkupReading(reading: string, glossary: string, sentence: Option<string>): FactMarkup
  {
    FactMarkup(reading, [], glossary, sentence)
  }

  /**
   * A reading fact is the expression fact whose expression is the reading
   * and whose reading is empty; the glossary and sentence are passed through.
   */
  lemma ReadingFactIsExpressionFact(reading: string, glossary: string, sentence: Option<string>)
    ensures BuildFactMarkupReading(reading, glossary, sentence)
         == BuildFactMarkupExpression(reading, [], glossary, sentence)
    ensures BuildFactMarkupReading(reading, glossary, sentence).expression == reading
    ensures BuildFactMarkupReading(reading, glossary, sentence).reading == []
  {
  }
}
