/** How both agents find the JSON object in the language model's reply:
    the slice from the first `{` to the last `}`, handed to `json.loads`. */
module JsonLocate {
  import opened Text
  import opened Values

  /** The candidate JSON text of `content`, or `None` when it lacks a `{` or
      a `}`. Python's `content[start:end]` is empty when the last `}` comes
      before the first `{`, so the candidate is then "". */
  function LocateJson(content: string): (candidate: Option<string>)
    ensures candidate.None? <==> '{' !in content || '}' !in content
    ensures candidate.Some? && candidate.value != "" ==>
      candidate.value[0] == '{' && candidate.value[|candidate.value| - 1] == '}'
  {
    var start := Find(content, '{');
    var end := RFind(content, '}') + 1;
    if start != -1 && end != 0 then
      Some(if start <= end then content[start..end] else "")
    else
      None
  }

  /** When the first `{` is at `i` and the last `}` at `j`, with `i <= j`,
      the candidate is exactly `content[i..j]` inclusive. */
  lemma LocateJsonSlice(content: string, i: nat, j: nat)
    requires i <= j < |content|
    requires content[i] == '{' && '{' !in content[..i]
    requires content[j] == '}' && '}' !in content[j + 1..]
    ensures LocateJson(content) == Some(content[i..j + 1])
  {
    FindIsFirst(content, '{', i);
    RFindIsLast(content, '}', j);
  }

  /** When the last `}` comes before the first `{`, the candidate is empty. */
  lemma LocateJsonCrossed(content: string, i: nat, j: nat)
    requires j < i < |content|
    requires content[i] == '{' && '{' !in content[..i]
    requires content[j] == '}' && '}' !in content[j + 1..]
    ensures LocateJson(content) == Some("")
  {
    FindIsFirst(content, '{', i);
    RFindIsLast(content, '}', j);
  }

  lemma FindIsFirst(s: string, c: char, i: nat)
    requires i < |s| && s[i] == c && c !in s[..i]
    ensures Find(s, c) == i
  {
  }

  lemma RFindIsLast(s: string, c: char, j: nat)
    requires j < |s| && s[j] == c && c !in s[j + 1..]
    ensures RFind(s, c) == j
  {
    assert forall k :: j < k < |s| ==> s[k] == s[j + 1..][k - j - 1];
  }
}
