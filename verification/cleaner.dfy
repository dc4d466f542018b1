/** The response cleaner applied to the language model's reply before it is
    parsed as JSON: strips a Markdown code fence around the payload. */
module Cleaner {
  import opened Chars
  import opened Strings
  import opened Wrappers

  const Fence := "```"

  predicate StartsWithFence(s: string) {
    |s| >= 3 && s[..3] == Fence
  }

  /** The fence is followed by `json` in any letter case; the optional group
      of the pattern is greedy, so the tag is taken whenever it is there. */
  predicate HasJsonTag(s: string) {
    |s| >= 3 && StartsWithJsonTag(s[3..])
  }

  /** `json` under ASCII case folding. */
  predicate IsJsonTag(t: string) {
    |t| == 4 && Lower(t[0]) == 'j' && Lower(t[1]) == 's' && Lower(t[2]) == 'o' && Lower(t[3]) == 'n'
  }

  /** `re.sub(r"^```(?:json)?\s*", "", s, flags=re.I)`: the anchor only
      matches at the start, so at most one opening fence goes, together with
      a `json` tag in any letter case and the whitespace after it. */
  function DropOpenFence(s: string): (r: string)
    ensures |r| <= |s| && r == s[|s| - |r|..]
    ensures !StartsWithFence(s) ==> r == s
    ensures StartsWithFence(s) ==>
              var cut := |s| - |r|;
              var tagged := HasJsonTag(s);
              && cut >= (if tagged then 7 else 3)
              && AllIn(s[(if tagged then 7 else 3)..cut], Whitespace)
              && (r == [] || !IsSpace(r[0]))
  {
    if StartsWithFence(s) then
      var afterTag := if HasJsonTag(s) then s[7..] else s[3..];
      var r := TrimStart(afterTag, Whitespace);
      assert s[|s| - |r|..] == r;
      r
    else s
  }

  /** `re.sub(r"```$", "", s)`: removes a closing fence at the very end, or
      just before a final line feed, which Python's `$` also accepts. */
  function DropCloseFence(s: string): (r: string)
    ensures |s| >= 3 && s[|s| - 3..] == Fence ==> r == s[..|s| - 3]
    ensures !(|s| >= 3 && s[|s| - 3..] == Fence) && |s| >= 4 && s[|s| - 4..] == Fence + "\n" ==> r == s[..|s| - 4] + "\n"
    ensures !(|s| >= 3 && s[|s| - 3..] == Fence) && !(|s| >= 4 && s[|s| - 4..] == Fence + "\n") ==> r == s
  {
    if |s| >= 3 && s[|s| - 3..] == Fence then s[..|s| - 3]
    else if |s| >= 4 && s[|s| - 4..] == Fence + "\n" then s[..|s| - 4] + "\n"
    else s
  }

  /** `clean_json_text`. `None` stands for Python's `None`; `html.unescape`
      is taken as the identity. */
  function CleanJsonText(raw: Option<string>): (r: string)
    ensures raw == None || raw == Some("") ==> r == ""
    ensures Stripped(r, Whitespace)
    ensures |r| <= |raw.GetOr("")|
  {
    var s := Strip(raw.GetOr(""), Whitespace);
    Strip(DropCloseFence(DropOpenFence(s)), Whitespace)
  }

  /** `t` begins with `json` in some letter case. */
  predicate StartsWithJsonTag(t: string) {
    |t| >= 4 && IsJsonTag(t[..4])
  }

  /** The tag that may follow the opening fence, then whitespace, then
      `rest`: either `json` in any letter case, or no tag at all, in which
      case what follows the fence must not itself begin with `json` (the
      greedy optional group would take it as the tag). */
  predicate OpeningTag(tag: string, ws: string, rest: string) {
    AllIn(ws, Whitespace) && (IsJsonTag(tag) || (tag == "" && !StartsWithJsonTag(ws + rest)))
  }

  /** The opening fence, its tag and the whitespace after it all go. */
  lemma OpenFenceOfFenced(tag: string, ws: string, rest: string)
    requires OpeningTag(tag, ws, rest)
    ensures DropOpenFence(Fence + tag + ws + rest) == TrimStart(rest, Whitespace)
  {
    var s := Fence + tag + ws + rest;
    assert s[..3] == Fence;
    if tag == "" {
      assert s[3..] == ws + rest;
    } else {
      assert s[3..] == tag + (ws + rest);
      assert (tag + (ws + rest))[..4] == tag;
      assert s[7..] == ws + rest;
    }
    TrimStartDroppablePrefix(ws, rest, Whitespace);
  }

  /** A closing fence at the very end goes. */
  lemma CloseFenceOfFenced(x: string)
    ensures DropCloseFence(x + Fence) == x
  {
    var s := x + Fence;
    assert s[|s| - 3..] == Fence;
    assert s[..|s| - 3] == x;
  }

  /** Stripping the lstrip of a string is stripping the string. */
  lemma StripOfTrimStart(s: string)
    ensures Strip(TrimStart(s, Whitespace), Whitespace) == Strip(s, Whitespace)
  {
    var front := TrimStart(s, Whitespace);
    assert s == s[..|s| - |front|] + front;
    StripDroppablePrefix(s[..|s| - |front|], front, Whitespace);
  }

  /** A payload wrapped in a code fence comes out as the stripped payload. */
  lemma CleanFenced(tag: string, ws: string, body: string)
    requires OpeningTag(tag, ws, body)
    ensures CleanJsonText(Some(Fence + tag + ws + body + Fence)) == Strip(body, Whitespace)
  {
    var s := Fence + tag + ws + body + Fence;
    if tag == "" {
      NoTagBeforeFence(ws + body);
      assert ws + body + Fence == (ws + body) + Fence;
    }
    FencedIsStripped(s);
    DropFences(tag, ws, body);
    StripOfTrimStart(body);
  }

  /** A payload placed right after the opening fence, with no tag and no
      line break, also comes out unchanged: "```{...}```" gives "{...}". */
  lemma CleanBareFence(body: string)
    requires Stripped(body, Whitespace) && !StartsWithJsonTag(body)
    ensures CleanJsonText(Some(Fence + body + Fence)) == body
  {
    assert Fence + "" + "" + body + Fence == Fence + body + Fence;
    assert "" + body == body;
    CleanFenced("", "", body);
    StripOfStripped(body, Whitespace);
  }

  /** A closing fence cannot complete a `json` tag. */
  lemma NoTagBeforeFence(t: string)
    requires !StartsWithJsonTag(t)
    ensures !StartsWithJsonTag(t + Fence)
  {
    if |t| < 4 && |t + Fence| >= 4 {
      var u := (t + Fence)[..4];
      assert u[|t|] == '`';
    } else if |t| >= 4 {
      assert (t + Fence)[..4] == t[..4];
    }
  }

  /** A string starting and ending with a backtick has nothing to strip. */
  lemma FencedIsStripped(s: string)
    requires |s| > 0 && s[0] == '`' && s[|s| - 1] == '`'
    ensures Strip(s, Whitespace) == s
  {
    StripOfStripped(s, Whitespace);
  }

  /** Both fence removals applied to a fenced payload leave the payload
      without its leading whitespace. */
  lemma DropFences(tag: string, ws: string, body: string)
    requires OpeningTag(tag, ws, body + Fence)
    ensures DropCloseFence(DropOpenFence(Fence + tag + ws + body + Fence)) == TrimStart(body, Whitespace)
  {
    assert Fence + tag + ws + body + Fence == Fence + tag + ws + (body + Fence);
    OpenFenceOfFenced(tag, ws, body + Fence);
    TrimStartKeepsTail(body, Fence, Whitespace);
    CloseFenceOfFenced(TrimStart(body, Whitespace));
  }

  /** Without a closing fence at its end, a stripped string keeps its end. */
  lemma CloseFenceAbsent(s: string)
    requires Stripped(s, Whitespace)
    requires !(|s| >= 3 && s[|s| - 3..] == Fence)
    ensures DropCloseFence(s) == s
  {
    if |s| >= 4 && s[|s| - 4..] == Fence + "\n" {
      assert false;
    }
  }

  /** A reply without fences is only stripped. */
  lemma CleanUnfenced(raw: string)
    requires var s := Strip(raw, Whitespace); !StartsWithFence(s) && !(|s| >= 3 && s[|s| - 3..] == Fence)
    ensures CleanJsonText(Some(raw)) == Strip(raw, Whitespace)
  {
    var s := Strip(raw, Whitespace);
    CloseFenceAbsent(s);
    StripIdempotent(raw, Whitespace);
  }

  /** The closing fence is never found before a final line feed: the
      reply was stripped first, and removing an opening fence only cuts
      from the front. */
  lemma CloseFenceBeforeLineFeedUnreachable(raw: Option<string>)
    ensures var t := DropOpenFence(Strip(raw.GetOr(""), Whitespace));
            !(|t| >= 4 && t[|t| - 4..] == Fence + "\n")
  {
    var s := Strip(raw.GetOr(""), Whitespace);
    var t := DropOpenFence(s);
    if |t| >= 4 && t[|t| - 4..] == Fence + "\n" {
      assert false;
    }
  }

  /** A payload fenced as JSON: "```json", a line feed, the payload, a line feed, "```". */
  function JsonFenced(payload: string): string {
    Fence + "json\n" + payload + "\n" + Fence
  }

  /** The cleaner makes a single pass, so cleaning twice can differ from
      cleaning once: a JSON-fenced payload nested in a second fence loses
      only the outer fence, and a second pass removes the inner one. */
  lemma CleanNotIdempotent(payload: string)
    requires Stripped(payload, Whitespace)
    ensures var once := CleanJsonText(Some(Fence + "\n" + JsonFenced(payload) + "\n" + Fence));
            && once == JsonFenced(payload)
            && CleanJsonText(Some(once)) == payload
            && CleanJsonText(Some(once)) != once
  {
    CleanOuterFence(payload);
    CleanJsonFenced(payload);
  }

  lemma CleanOuterFence(payload: string)
    ensures CleanJsonText(Some(Fence + "\n" + JsonFenced(payload) + "\n" + Fence)) == JsonFenced(payload)
  {
    var inner := JsonFenced(payload);
    assert Fence + "\n" + inner + "\n" + Fence == Fence + "" + "\n" + (inner + "\n") + Fence;
    CleanFenced("", "\n", inner + "\n");
    StripDroppableSuffix(inner, "\n", Whitespace);
    JsonFencedEnds(payload);
    StripOfStripped(inner, Whitespace);
  }

  lemma JsonFencedEnds(payload: string)
    ensures Stripped(JsonFenced(payload), Whitespace)
  {
    var front := Fence + "json\n" + payload + "\n";
    assert JsonFenced(payload) == front + Fence;
    assert JsonFenced(payload)[0] == front[0] == '`';
    assert JsonFenced(payload)[|front| + 2] == Fence[2];
  }

  lemma CleanJsonFenced(payload: string)
    requires Stripped(payload, Whitespace)
    ensures CleanJsonText(Some(JsonFenced(payload))) == payload
  {
    assert JsonFenced(payload) == Fence + "json" + "\n" + (payload + "\n") + Fence;
    CleanFenced("json", "\n", payload + "\n");
    StripDroppableSuffix(payload, "\n", Whitespace);
    StripOfStripped(payload, Whitespace);
  }
}
