/** `YarnV1Parser.parse` of packages/utils/src/parsers/v1.ts: the output of
    `yarn workspaces info` is a log around one JSON object; the text from the
    first `{` to the last `}` is handed to `JSON.parse` (a parameter here) and
    its value returned as it is. */
module YarnV1 {
  import opened Wrappers
  import opened Strings

  /** The lines joined with newlines. */
  function Output(input: seq<string>): string
  {
    Join(input, "\n")
  }

  /** `output.substr(start, end - start + 1)` for the first `{` and the last `}`. */
  function ObjectText(input: seq<string>): string
  {
    var output := Output(input);
    var start := IndexOf(output, '{');
    var end := LastIndexOf(output, '}');
    Substr(output, start, end - start + 1)
  }

  function Parse<J>(input: seq<string>, jsonParse: string -> Result<J>): Result<J>
  {
    jsonParse(ObjectText(input))
  }

  /** When a `}` follows the first `{`, the text parsed runs from the first `{`
      to the last `}` inclusive: it is the output with everything before the
      first `{` and everything after the last `}` cut off. */
  lemma ObjectTextSpan(input: seq<string>)
    requires var output := Output(input); '{' in output && IndexOf(output, '{') <= LastIndexOf(output, '}')
    ensures var output := Output(input);
            var start := IndexOf(output, '{');
            var end := LastIndexOf(output, '}');
            var r := ObjectText(input);
            |r| == end - start + 1 && r[0] == '{' && r[|r| - 1] == '}'
            && output == output[..start] + r + output[end + 1..]
            && '{' !in output[..start] && '}' !in output[end + 1..]
  {
    var output := Output(input);
    var start := IndexOf(output, '{');
    var end := LastIndexOf(output, '}');
    assert ObjectText(input) == output[start..end + 1];
    CutAround(output, start, end);
  }

  /** A string is what comes before `start`, the span up to `end` and what
      comes after it; with `start` the first `{` and `end` the last `}`, the
      cut-off parts hold neither. */
  lemma CutAround(s: string, start: int, end: int)
    requires 0 <= start <= end < |s|
    requires forall k :: 0 <= k < start ==> s[k] != '{'
    requires forall k :: end < k < |s| ==> s[k] != '}'
    ensures s == s[..start] + s[start..end + 1] + s[end + 1..]
    ensures '{' !in s[..start] && '}' !in s[end + 1..]
  {
    assert s == s[..start] + s[start..end + 1] + s[end + 1..];
    var tail := s[end + 1..];
    forall k | 0 <= k < |tail| ensures tail[k] != '}' {
      assert tail[k] == s[end + 1 + k];
    }
  }

  /** With a `{` but no `}` after it, the text parsed is empty. */
  lemma UnclosedGivesEmpty(input: seq<string>)
    requires var output := Output(input); '{' in output && LastIndexOf(output, '}') < IndexOf(output, '{')
    ensures ObjectText(input) == ""
  {
  }

  /** Without any `{`, `substr` starts from the last character (a start of -1
      counts back from the end), so that one character, or the empty text for
      an empty output, is what gets parsed. */
  lemma NoBraceGivesLastCharacter(input: seq<string>)
    requires '{' !in Output(input)
    ensures var output := Output(input);
            ObjectText(input) == if |output| == 0 then "" else [output[|output| - 1]]
  {
  }

  /** Text around the object that holds no `{` before it and no `}` after it
      does not change the result: the parse sees only the object. */
  lemma {:induction false} ParseDiscardsSurroundings<J>(input: seq<string>, pre: string, body: string, post: string, jsonParse: string -> Result<J>)
    requires Output(input) == pre + body + post
    requires |body| >= 1 && body[0] == '{' && body[|body| - 1] == '}'
    requires '{' !in pre && '}' !in post
    ensures Parse(input, jsonParse) == jsonParse(body)
  {
    BracesAround(pre, body, post);
  }

  /** In `pre + body + post`, the first `{` and the last `}` are the ends of
      `body`. */
  lemma BracesAround(pre: string, body: string, post: string)
    requires |body| >= 1 && body[0] == '{' && body[|body| - 1] == '}'
    requires '{' !in pre && '}' !in post
    ensures var s := pre + body + post;
            IndexOf(s, '{') == |pre| && LastIndexOf(s, '}') == |pre| + |body| - 1
            && s[|pre|..|pre| + |body|] == body
  {
    var s := pre + body + post;
    assert s[|pre|] == '{';
    assert s[|pre| + |body| - 1] == '}';
    assert forall k :: 0 <= k < |pre| ==> s[k] == pre[k];
    assert forall k :: |pre| + |body| <= k < |s| ==> s[k] == post[k - |pre| - |body|];
  }
}
