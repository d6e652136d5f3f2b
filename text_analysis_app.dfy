/**
  The state of the `TextAnalysisApp` component: its eight state cells become
  the fields of a class, and the event handlers become methods that overwrite
  some of them. React's `null` is `None`.
 */
module TextAnalysis {
  import opened TextMetrics
  import opened TextTransformer

  datatype Option<T> = None | Some(value: T)

  /** The values `activeOperation` takes besides `null`: 'countWords', 'countChars', 'replaceWord'. */
  datatype Operation = CountWords | CountChars | ReplaceWord

  class TextAnalysisApp {
    var text: string
    var searchString: string
    var replaceString: string
    var modifiedText: string
    var uniqueWordsInsensitive: Option<nat>
    var uniqueWordsSensitive: Option<nat>
    var characterCount: Option<nat>
    var activeOperation: Option<Operation>

    /**
      What every handler the user can reach keeps true: the two word counts are
      present together and come from one text, so the case-insensitive one is
      never the larger; and no count is present before an operation has been
      chosen since the last clear.
     */
    ghost predicate Valid()
      reads this
    {
      && (uniqueWordsInsensitive.Some? <==> uniqueWordsSensitive.Some?)
      && (uniqueWordsInsensitive.Some? ==> uniqueWordsInsensitive.value <= uniqueWordsSensitive.value)
      && (activeOperation.None? ==> uniqueWordsSensitive.None? && characterCount.None?)
    }

    /** The initial values given to `useState`. */
    constructor ()
      ensures Valid()
      ensures text == "" && searchString == "" && replaceString == "" && modifiedText == ""
      ensures uniqueWordsInsensitive.None? && uniqueWordsSensitive.None? && characterCount.None?
      ensures activeOperation.None?
    {
      text, searchString, replaceString, modifiedText := "", "", "", "";
      uniqueWordsInsensitive, uniqueWordsSensitive, characterCount := None, None, None;
      activeOperation := None;
    }

    /** `handleTextChange`: the text area's new value replaces the text; no result is recomputed. */
    method HandleTextChange(value: string)
      requires Valid()
      modifies this`text
      ensures Valid()
      ensures text == value
    {
      text := value;
    }

    /** The search-string input's `onChange`; the input is shown only on the Replace Word panel. */
    method SetSearchString(value: string)
      requires Valid()
      requires activeOperation == Some(ReplaceWord)
      modifies this`searchString
      ensures Valid()
      ensures searchString == value
    {
      searchString := value;
    }

    /** The replace-with input's `onChange`; the input is shown only on the Replace Word panel. */
    method SetReplaceString(value: string)
      requires Valid()
      requires activeOperation == Some(ReplaceWord)
      modifies this`replaceString
      ensures Valid()
      ensures replaceString == value
    {
      replaceString := value;
    }

    /** `generateUniqueWordCountInsensitive`: distinct tokens of the lowercased text. */
    method GenerateUniqueWordCountInsensitive()
      modifies this`uniqueWordsInsensitive
      ensures uniqueWordsInsensitive == Some(UniqueWordCount(ToLowerCase(text)))
    {
      uniqueWordsInsensitive := Some(UniqueWordCount(ToLowerCase(text)));
    }

    /** `generateUniqueWordCountSensitive`: distinct tokens of the text as typed. */
    method GenerateUniqueWordCountSensitive()
      modifies this`uniqueWordsSensitive
      ensures uniqueWordsSensitive == Some(UniqueWordCount(text))
    {
      uniqueWordsSensitive := Some(UniqueWordCount(text));
    }

    /** `generateCharacterCount`: the number of ASCII letters and digits. */
    method GenerateCharacterCount()
      modifies this`characterCount
      ensures characterCount == Some(CharacterCount(text))
    {
      characterCount := Some(CharacterCount(text));
    }

    /**
      `handleReplace`: the text with every match of the search string replaced
      by the highlighted replacement. The Replace All button is shown only on
      the Replace Word panel. Only a search string free of regular expression
      syntax characters is modelled.
     */
    method HandleReplace()
      requires Valid()
      requires activeOperation == Some(ReplaceWord)
      requires IsLiteralPattern(searchString)
      modifies this`modifiedText
      ensures Valid()
      ensures modifiedText == ReplaceAllHighlighted(text, searchString, replaceString)
    {
      modifiedText := ReplaceAllHighlighted(text, searchString, replaceString);
    }

    /** `handleClear`: every cell back to its initial value. */
    method HandleClear()
      requires Valid()
      modifies this
      ensures Valid()
      ensures text == "" && searchString == "" && replaceString == "" && modifiedText == ""
      ensures uniqueWordsInsensitive.None? && uniqueWordsSensitive.None? && characterCount.None?
      ensures activeOperation.None?
    {
      text, searchString, replaceString, modifiedText := "", "", "", "";
      uniqueWordsInsensitive, uniqueWordsSensitive, characterCount := None, None, None;
      activeOperation := None;
    }

    /** The Count Words button: select the panel and compute both unique counts from the current text. */
    method CountWordsClicked()
      requires Valid()
      modifies this`activeOperation, this`uniqueWordsInsensitive, this`uniqueWordsSensitive
      ensures Valid()
      ensures activeOperation == Some(CountWords)
      ensures uniqueWordsInsensitive == Some(UniqueWordCount(ToLowerCase(text)))
      ensures uniqueWordsSensitive == Some(UniqueWordCount(text))
    {
      activeOperation := Some(CountWords);
      GenerateUniqueWordCountInsensitive();
      GenerateUniqueWordCountSensitive();
      CaseInsensitiveAtMostSensitive(text);
    }

    /** The Count Characters button: select the panel and compute the character count. */
    method CountCharsClicked()
      requires Valid()
      modifies this`activeOperation, this`characterCount
      ensures Valid()
      ensures activeOperation == Some(CountChars)
      ensures characterCount == Some(CharacterCount(text))
    {
      activeOperation := Some(CountChars);
      GenerateCharacterCount();
    }

    /** The Replace Word button: select the panel and nothing else. */
    method ReplaceWordClicked()
      requires Valid()
      modifies this`activeOperation
      ensures Valid()
      ensures activeOperation == Some(ReplaceWord)
    {
      activeOperation := Some(ReplaceWord);
    }
  }

  /**
    Pressing Count Words twice without editing the text shows the same two
    counts, the case-insensitive one never the larger; Clear then puts every
    cell back to its initial value, whatever came before.
   */
  method CountWordsTwiceThenClear(app: TextAnalysisApp) returns (first: (Option<nat>, Option<nat>), second: (Option<nat>, Option<nat>))
    requires app.Valid()
    modifies app
    ensures first == second
    ensures first == (Some(UniqueWordCount(ToLowerCase(old(app.text)))), Some(UniqueWordCount(old(app.text))))
    ensures first.0.value <= first.1.value
    ensures app.Valid()
    ensures app.text == "" && app.searchString == "" && app.replaceString == "" && app.modifiedText == ""
    ensures app.uniqueWordsInsensitive.None? && app.uniqueWordsSensitive.None? && app.characterCount.None?
    ensures app.activeOperation.None?
  {
    app.CountWordsClicked();
    first := (app.uniqueWordsInsensitive, app.uniqueWordsSensitive);
    app.CountWordsClicked();
    second := (app.uniqueWordsInsensitive, app.uniqueWordsSensitive);
    app.HandleClear();
  }

  /**
    Open the Replace Word panel, type a search and a replacement string and
    press Replace All: the panel stays open with both strings in place, the
    text and every count are kept, and the highlighted result is shown,
    which is the text itself when the search string does not occur.
   */
  method ReplaceFlow(app: TextAnalysisApp, search: string, rep: string)
    requires app.Valid()
    requires IsLiteralPattern(search)
    modifies app
    ensures app.Valid()
    ensures app.activeOperation == Some(ReplaceWord)
    ensures app.searchString == search && app.replaceString == rep
    ensures app.text == old(app.text)
    ensures app.uniqueWordsInsensitive == old(app.uniqueWordsInsensitive)
    ensures app.uniqueWordsSensitive == old(app.uniqueWordsSensitive)
    ensures app.characterCount == old(app.characterCount)
    ensures app.modifiedText == ReplaceAllHighlighted(app.text, search, rep)
    ensures (forall q :: !OccursAt(app.text, search, q)) ==> app.modifiedText == app.text
  {
    app.ReplaceWordClicked();
    app.SetSearchString(search);
    app.SetReplaceString(rep);
    app.HandleReplace();
  }
}
