/** The manual question form (`ManualQuestionEntry`): four option fields, a
    radio choice of the correct one, and the checks before a question is
    added to the bank. */
module ManualQuestionEntry {
  import opened Js
  import opened Seqs
  import QuestionStore

  /** The radios are rendered from the four options, so the chosen index is
      always one of 0..3. */
  type OptionIndex = i: int | 0 <= i < 4

  datatype EntryForm = EntryForm(
    text: string,
    options: seq<string>,
    correct: OptionIndex,
    difficulty: QuestionStore.Difficulty)

  /** The form as first shown and as reset after each added question. */
  const Blank := EntryForm("", ["", "", "", ""], 0, QuestionStore.Medium)

  /** `handleOptionChange`: only option `i` changes. */
  function ChangeOption(f: EntryForm, i: OptionIndex, value: string): (g: EntryForm)
    requires |f.options| == 4
    ensures |g.options| == 4 && g.options[i] == value
    ensures forall j :: 0 <= j < 4 && j != i ==> g.options[j] == f.options[j]
    ensures g.text == f.text && g.correct == f.correct && g.difficulty == f.difficulty
  {
    f.(options := f.options[i := value])
  }

  /** Clicking the radio of option `i`. */
  function ChooseCorrect(f: EntryForm, i: OptionIndex): EntryForm {
    f.(correct := i)
  }

  datatype Added = Added(form: EntryForm, bank: QuestionStore.Bank, error: Option<string>)

  /** `handleAddQuestion`. Blank question text is refused first, then any
      blank option; nothing is added and the form stays. Otherwise the
      question, with the text and options as typed and the chosen index as its
      correct answer, is added to the bank and the form is reset. */
  function AddQuestion(f: EntryForm, b: QuestionStore.Bank, subjectId: string, freshId: string)
    : (r: Added)
    ensures AllSpace(f.text) ==>
              r == Added(f, b, Some("Please enter the question text"))
    ensures !AllSpace(f.text) && (exists i :: 0 <= i < |f.options| && AllSpace(f.options[i])) ==>
              r == Added(f, b, Some("Please fill in all options"))
    ensures r.error.None? <==>
              !AllSpace(f.text) && forall i :: 0 <= i < |f.options| ==> !AllSpace(f.options[i])
    ensures r.error.None? ==>
              r.form == Blank
              && r.bank == QuestionStore.AddQuestion(
                             b, QuestionStore.QuestionData(f.text, f.options, f.correct, f.difficulty, subjectId),
                             freshId)
              && 0 <= r.bank.questions[|b.questions|].correctAnswer < 4
  {
    BlankIffAllSpace(f.text);
    if Trim(f.text) == [] then Added(f, b, Some("Please enter the question text"))
    else if Any((o: string) => Trim(o) == [], f.options) then
      assert exists i :: 0 <= i < |f.options| && AllSpace(f.options[i]) by {
        var i :| 0 <= i < |f.options| && Trim(f.options[i]) == [];
        BlankIffAllSpace(f.options[i]);
      }
      Added(f, b, Some("Please fill in all options"))
    else
      assert forall i :: 0 <= i < |f.options| ==> !AllSpace(f.options[i]) by {
        forall i | 0 <= i < |f.options| ensures !AllSpace(f.options[i]) {
          BlankIffAllSpace(f.options[i]);
        }
      }
      var data := QuestionStore.QuestionData(f.text, f.options, f.correct, f.difficulty, subjectId);
      Added(Blank, QuestionStore.AddQuestion(b, data, freshId), None)
  }
}
