/** The user prompt `_generate_answer` sends to the language model: a fixed
    instruction, the question, and, when the file content is truthy in
    Python's sense, a heading followed by the content serialised as JSON.
    The serialiser (`json.dumps`) is a parameter of the model. */
module Prompt {
  import opened Wrappers
  import opened FileContent

  const Instruction: string :=
    "You are an assistant that helps with data science assignments. Answer the following question:\n\n"

  const ContentHeading: string := "\n\nFile content: "

  /** Python truthiness of `_process_file`'s result: `None`, an empty list
      of rows and an empty dictionary are false; a non-empty list, a
      non-empty dictionary and a non-empty error text are true. */
  predicate Truthy(content: Option<Content>)
    ensures content.None? ==> !Truthy(content)
    ensures content == Some(Table(Rows([]))) ==> !Truthy(content)
    ensures content == Some(Archive(map[])) ==> !Truthy(content)
    ensures (content.Some? && content.value.Table? && content.value.table.CsvError?
             && CsvErrorPrefix <= content.value.table.message) ==> Truthy(content)
  {
    match content
    case None => false
    case Some(Table(Rows(rows))) => |rows| > 0
    case Some(Table(CsvError(message))) => message != []
    case Some(Archive(files)) => |files| > 0
  }

  /** The prompt: the instruction, then the question verbatim, then — exactly
      when the content is truthy — the heading and the serialised content. */
  function BuildPrompt(question: string, content: Option<Content>, dumps: Content -> string): (prompt: string)
    ensures |prompt| >= |Instruction| + |question|
    ensures prompt[..|Instruction|] == Instruction
    ensures prompt[|Instruction|..|Instruction| + |question|] == question
    ensures |prompt| > |Instruction| + |question| <==> Truthy(content)
    ensures Truthy(content) ==> prompt[|Instruction| + |question|..] == ContentHeading + dumps(content.value)
  {
    var bare := Instruction + question;
    assert bare[..|Instruction|] == Instruction;
    assert bare[|Instruction|..] == question;
    if Truthy(content) then
      var full := bare + ContentHeading + dumps(content.value);
      assert full[..|bare|] == bare;
      full
    else bare
  }

  /** Two questions asked with the same content give the same prompt only
      when they are the same question. */
  lemma QuestionRecoverable(q1: string, q2: string, content: Option<Content>, dumps: Content -> string)
    requires BuildPrompt(q1, content, dumps) == BuildPrompt(q2, content, dumps)
    ensures q1 == q2
  {
    var p := BuildPrompt(q1, content, dumps);
    if Truthy(content) {
      var tail := ContentHeading + dumps(content.value);
      assert |p| == |Instruction| + |q1| + |tail|;
      assert |p| == |Instruction| + |q2| + |tail|;
    } else {
      assert |p| == |Instruction| + |q1|;
      assert |p| == |Instruction| + |q2|;
    }
    assert q1 == p[|Instruction|..|Instruction| + |q1|];
  }

  /** A CSV file the parser rejects still reaches the model: its error text
      is never empty, so it is appended. */
  lemma CsvErrorSent(question: string, cause: string, dumps: Content -> string)
    ensures var content := Table(ProcessCsv(ParseFailed(cause)));
      BuildPrompt(question, Some(content), dumps) == Instruction + question + ContentHeading + dumps(content)
  {
    var content := Table(ProcessCsv(ParseFailed(cause)));
    assert |content.table.message| >= |CsvErrorPrefix|;
    assert Truthy(Some(content));
  }

  /** For an uploaded file, the prompt carries file content exactly when the
      file is an archive holding at least one CSV file, or a CSV file that
      failed to parse or has at least one row; otherwise it is the same
      prompt as when no file was sent. */
  lemma {:induction false} FileContentSentIff(question: string, path: string, parse: Parse,
                                                walk: seq<seq<WalkEntry>>, dumps: Content -> string)
    ensures var prompt := BuildPrompt(question, ProcessFile(path, parse, walk), dumps);
      && (prompt != BuildPrompt(question, None, dumps) <==>
           || (Dispatch(path) == ZipHandler && CsvNames(Flatten(walk)) != {})
           || (Dispatch(path) == CsvHandler && (parse.ParseFailed? || |parse.rows| > 0)))
      && (prompt == BuildPrompt(question, None, dumps) ==> prompt == Instruction + question)
  {
    var content := ProcessFile(path, parse, walk);
    var bare := BuildPrompt(question, None, dumps);
    assert bare == Instruction + question;
    var prompt := BuildPrompt(question, content, dumps);
    assert prompt != bare <==> Truthy(content);
    match Dispatch(path)
    case ZipHandler =>
      assert |content.value.files| > 0 <==> content.value.files.Keys != {};
    case CsvHandler =>
      if parse.ParseFailed? {
        assert |content.value.table.message| >= |CsvErrorPrefix|;
      }
    case NoHandler =>
  }
}
