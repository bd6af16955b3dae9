/**
 * `format_response_to_text` (the command-line entry of
 * src/rag/pdf_processor.py): the report written to the output file, framed
 * by the configured start and end markers, and the reading of such a report
 * back into its outcome and payload.
 */
module ResponseFormat {
  import opened Wrappers
  import opened Text

  /** A framed report's meaning: success or failure, and the message or error it carries. */
  datatype Response = Response(success: bool, payload: string)

  const SuccessTag: string := "SUCCESS\n"
  const ErrorTag: string := "ERROR\n"

  /**
   * `format_response_to_text(success, message="", error="")`, with the
   * `RESPONSE_START` and `RESPONSE_END` markers of the configuration passed
   * in first as `start` and `end`.
   */
  function FormatResponseToText(start: string, end: string, success: bool, message: string := "", error: string := ""): (text: string)
    ensures start <= text && EndsWith(text, end)
  {
    start + (if success then SuccessTag + message else ErrorTag + error) + end
  }

  /** Reads a framed report: strips the markers, then the `SUCCESS` or `ERROR` line. */
  function ParseResponse(text: string, start: string, end: string): Option<Response> {
    if |text| < |start| + |end| || !(start <= text) || !EndsWith(text, end) then None
    else
      var content := text[|start|..|text| - |end|];
      if SuccessTag <= content then Some(Response(true, content[|SuccessTag|..]))
      else if ErrorTag <= content then Some(Response(false, content[|ErrorTag|..]))
      else None
  }

  /**
   * A success report carries the message and ignores the error; a failure
   * report carries the error and ignores the message; both read back as
   * exactly that.
   */
  lemma {:induction false} FormatThenParse(success: bool, message: string, error: string, start: string, end: string)
    ensures ParseResponse(FormatResponseToText(start, end, success, message, error), start, end)
      == Some(Response(success, if success then message else error))
  {
    var text := FormatResponseToText(start, end, success, message, error);
    var content := if success then SuccessTag + message else ErrorTag + error;
    assert text[|start|..|text| - |end|] == content;
    if success {
      assert content[|SuccessTag|..] == message;
    } else {
      assert !(SuccessTag <= content) by {
        assert content[0] == 'E';
      }
      assert content[|ErrorTag|..] == error;
    }
  }

  /** Every text that reads as a report is the formatting of what it reads as. */
  lemma {:induction false} ParseThenFormat(text: string, start: string, end: string)
    requires ParseResponse(text, start, end).Some?
    ensures var r := ParseResponse(text, start, end).value;
      FormatResponseToText(start, end, r.success, r.payload, r.payload) == text
  {
    var content := text[|start|..|text| - |end|];
    var r := ParseResponse(text, start, end).value;
    var tag := if r.success then SuccessTag else ErrorTag;
    assert content == tag + r.payload;
    assert text == text[..|start|] + content + text[|text| - |end|..];
  }
}
