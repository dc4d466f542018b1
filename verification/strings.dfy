/** String operations of Python's `str` type that the script relies on:
    `strip` with a character class, `join`, `replace` of one character and
    prefix slicing. */
module Strings {
  import opened Chars

  /** The two character sets the script strips. */
  datatype CharClass = Whitespace | DotOrSpace

  predicate InClass(c: char, cls: CharClass) {
    match cls
    case Whitespace => IsSpace(c)
    case DotOrSpace => IsDotOrSpace(c)
  }

  /** Every character of `s` is one the strip would remove. */
  predicate AllIn(s: string, cls: CharClass) {
    forall k :: 0 <= k < |s| ==> InClass(s[k], cls)
  }

  /** Nothing is left to strip: `s` is empty or both of its ends are kept characters. */
  predicate Stripped(s: string, cls: CharClass) {
    s == [] || (!InClass(s[0], cls) && !InClass(s[|s| - 1], cls))
  }

  /** `r` sits at offset `i` of `s`, and everything of `s` around it is droppable. */
  predicate StripWitness(s: string, r: string, i: int, cls: CharClass) {
    && 0 <= i <= |s| - |r|
    && r == s[i..i + |r|]
    && AllIn(s[..i], cls)
    && AllIn(s[i + |r|..], cls)
  }

  /** Number of droppable characters at the front of `s`. */
  function LeadCount(s: string, cls: CharClass): (n: nat)
    ensures n <= |s|
    ensures forall k :: 0 <= k < n ==> InClass(s[k], cls)
    ensures n < |s| ==> !InClass(s[n], cls)
    decreases |s|
  {
    if |s| > 0 && InClass(s[0], cls) then 1 + LeadCount(s[1..], cls) else 0
  }

  /** Number of droppable characters at the back of `s`. */
  function TrailCount(s: string, cls: CharClass): (n: nat)
    ensures n <= |s|
    ensures forall k :: |s| - n <= k < |s| ==> InClass(s[k], cls)
    ensures n < |s| ==> !InClass(s[|s| - 1 - n], cls)
    decreases |s|
  {
    if |s| > 0 && InClass(s[|s| - 1], cls) then 1 + TrailCount(s[..|s| - 1], cls) else 0
  }

  /** `lstrip`: the longest suffix of `s` that does not start with a droppable character. */
  function TrimStart(s: string, cls: CharClass): (r: string)
    ensures |r| <= |s| && r == s[|s| - |r|..]
    ensures AllIn(s[..|s| - |r|], cls)
    ensures r == [] || !InClass(r[0], cls)
  {
    s[LeadCount(s, cls)..]
  }

  /** `rstrip`: the longest prefix of `s` that does not end with a droppable character. */
  function TrimEnd(s: string, cls: CharClass): (r: string)
    ensures |r| <= |s| && r == s[..|r|]
    ensures AllIn(s[|r|..], cls)
    ensures r == [] || !InClass(r[|r| - 1], cls)
  {
    s[..|s| - TrailCount(s, cls)]
  }

  /** Droppable characters in front are skipped by lstrip. */
  lemma {:induction false} TrimStartDroppablePrefix(p: string, s: string, cls: CharClass)
    requires AllIn(p, cls)
    ensures TrimStart(p + s, cls) == TrimStart(s, cls)
    decreases |p|
  {
    if p != [] {
      var ps := p + s;
      assert ps[0] == p[0] && ps[1..] == p[1..] + s;
      TrimStartDroppablePrefix(p[1..], s, cls);
      assert LeadCount(ps, cls) == 1 + LeadCount(ps[1..], cls);
      assert ps[1 + LeadCount(ps[1..], cls)..] == ps[1..][LeadCount(ps[1..], cls)..];
    } else {
      assert p + s == s;
    }
  }

  /** The droppable run at the front ends before a kept character, so a
      tail starting with a kept character does not lengthen it. */
  lemma LeadCountKeepsTail(s: string, q: string, cls: CharClass)
    requires q != [] && !InClass(q[0], cls)
    ensures LeadCount(s + q, cls) == LeadCount(s, cls)
  {
    var m := LeadCount(s, cls);
    var sq := s + q;
    var n := LeadCount(sq, cls);
    assert sq[m] == if m < |s| then s[m] else q[0];
    assert forall k :: 0 <= k < m ==> sq[k] == s[k];
  }

  /** lstrip stops before a kept character, so it leaves anything after that alone. */
  lemma TrimStartKeepsTail(s: string, q: string, cls: CharClass)
    requires q != [] && !InClass(q[0], cls)
    ensures TrimStart(s + q, cls) == TrimStart(s, cls) + q
  {
    LeadCountKeepsTail(s, q, cls);
    var m := LeadCount(s, cls);
    assert (s + q)[m..] == s[m..] + q;
  }

  /** `strip`: drops every droppable character at either end of `s`. */
  function Strip(s: string, cls: CharClass): (r: string)
    ensures |r| <= |s|
    ensures Stripped(r, cls)
  {
    var r := TrimEnd(TrimStart(s, cls), cls);
    assert Stripped(r, cls) by {
      if r != [] {
        assert r[0] == TrimStart(s, cls)[0];
      }
    }
    r
  }

  /** The strip is a substring of `s` with only droppable characters around it. */
  lemma StripLocates(s: string, cls: CharClass)
    ensures StripWitness(s, Strip(s, cls), |s| - |TrimStart(s, cls)|, cls)
  {
    var t := TrimStart(s, cls);
    var r := TrimEnd(t, cls);
    var i := |s| - |t|;
    assert s[i..i + |r|] == r;
    assert s[i + |r|..] == t[|r|..];
  }

  /** Strip is characterised by StripLocates and its own contract: any
      substring bordered by droppable characters and with no droppable
      character at its ends is the strip. */
  lemma {:induction false} StripUnique(s: string, r: string, i: int, cls: CharClass)
    requires StripWitness(s, r, i, cls)
    requires Stripped(r, cls)
    ensures r == Strip(s, cls)
  {
    var t := TrimStart(s, cls);
    var st := Strip(s, cls);
    var j := |s| - |t|;
    StripLocates(s, cls);
    if r == [] {
      // every character of s is droppable, so the strip keeps nothing
      forall k | 0 <= k < |s|
        ensures InClass(s[k], cls)
      {
        if k < i {
          assert s[..i][k] == s[k];
        } else {
          assert s[i..][k - i] == s[k];
        }
      }
    } else {
      // r starts at the first kept character of s and ends at the last one
      assert s[i] == r[0];
      assert i == j;
      var e := i + |r| - 1;
      assert s[e] == r[|r| - 1];
      assert |r| == |st|;
    }
  }

  /** Stripping twice is stripping once. */
  lemma StripIdempotent(s: string, cls: CharClass)
    ensures Strip(Strip(s, cls), cls) == Strip(s, cls)
  {
    var r := Strip(s, cls);
    assert StripWitness(r, r, 0, cls);
    StripUnique(r, r, 0, cls);
  }

  /** A string with no droppable character at either end is left alone. */
  lemma StripOfStripped(s: string, cls: CharClass)
    requires Stripped(s, cls)
    ensures Strip(s, cls) == s
  {
    assert StripWitness(s, s, 0, cls);
    StripUnique(s, s, 0, cls);
  }

  /** Droppable characters prepended to a string vanish under strip. */
  lemma StripDroppablePrefix(p: string, s: string, cls: CharClass)
    requires AllIn(p, cls)
    ensures Strip(p + s, cls) == Strip(s, cls)
  {
    TrimStartDroppablePrefix(p, s, cls);
  }

  /** Droppable characters appended to a string vanish under strip. */
  lemma StripDroppableSuffix(s: string, q: string, cls: CharClass)
    requires AllIn(q, cls)
    ensures Strip(s + q, cls) == Strip(s, cls)
  {
    var r := Strip(s, cls);
    var i := |s| - |TrimStart(s, cls)|;
    StripLocates(s, cls);
    var sq := s + q;
    assert sq[..|s|] == s;
    assert sq[..i + |r|] == s[..i + |r|];
    assert sq[i..i + |r|] == s[i..i + |r|];
    assert sq[..i] == s[..i];
    assert AllIn(sq[i + |r|..], cls) by {
      forall k | i + |r| <= k < |sq|
        ensures InClass(sq[k], cls)
      {
        if k < |s| {
          assert sq[k] == s[i + |r|..][k - i - |r|];
        } else {
          assert sq[k] == q[k - |s|];
        }
      }
    }
    assert StripWitness(sq, r, i, cls);
    StripUnique(sq, r, i, cls);
  }

  /** Python's `sep.join(parts)`. */
  function Join(parts: seq<string>, sep: string): (r: string)
    ensures parts == [] ==> r == ""
    ensures |parts| == 1 ==> r == parts[0]
    ensures |parts| > 0 ==> |parts[0]| <= |r| && r[..|parts[0]|] == parts[0]
    decreases |parts|
  {
    if |parts| == 0 then ""
    else if |parts| == 1 then parts[0]
    else parts[0] + sep + Join(parts[1..], sep)
  }

  /** Joining one more part appends the separator and that part. */
  lemma {:induction false} JoinSnoc(parts: seq<string>, x: string, sep: string)
    requires parts != []
    ensures Join(parts + [x], sep) == Join(parts, sep) + sep + x
    decreases |parts|
  {
    if |parts| == 1 {
      assert parts + [x] == [parts[0], x];
      assert [parts[0], x][1..] == [x];
    } else {
      assert (parts + [x])[1..] == parts[1..] + [x];
      JoinSnoc(parts[1..], x, sep);
    }
  }

  /** The joined string ends with the last part. */
  lemma {:induction false} JoinEndsWithLast(parts: seq<string>, sep: string)
    requires parts != []
    ensures var r := Join(parts, sep); var l := parts[|parts| - 1];
            |l| <= |r| && r[|r| - |l|..] == l
    decreases |parts|
  {
    if |parts| > 1 {
      JoinEndsWithLast(parts[1..], sep);
      var tail := Join(parts[1..], sep);
      var l := parts[|parts| - 1];
      assert parts[1..][|parts| - 2] == l;
      var r := parts[0] + sep + tail;
      assert r[|r| - |l|..] == tail[|tail| - |l|..];
    }
  }

  /** `s.replace(from, to)` for single characters. */
  function ReplaceChar(s: string, from: char, to: char): (r: string)
    ensures |r| == |s|
    ensures forall k :: 0 <= k < |s| ==> r[k] == (if s[k] == from then to else s[k])
    ensures from != to ==> from !in r
    decreases |s|
  {
    if s == [] then []
    else [if s[0] == from then to else s[0]] + ReplaceChar(s[1..], from, to)
  }

  /** `s[:n]`: the first `n` characters, or all of `s` when it is shorter. */
  function Prefix(s: string, n: nat): (r: string)
    ensures |r| == if |s| < n then |s| else n
    ensures r == s[..|r|]
  {
    if |s| < n then s else s[..n]
  }
}
