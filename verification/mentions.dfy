/** The @handle rewrite of the renderer: a regular-expression substitution,
    scanning left to right, that turns each '@' followed by one to fifteen
    handle characters into a markdown link to that handle's profile on
    x.com. The match is greedy and matches never overlap. */
module Mentions {

  /** The character class `[a-zA-Z0-9_]` (ASCII only). */
  predicate IsHandleChar(c: char) {
    ('a' <= c <= 'z') || ('A' <= c <= 'Z') || ('0' <= c <= '9') || c == '_'
  }

  /** The `{1,15}` bound of the pattern. */
  const MaxHandle: nat := 15

  /** Length of the greedy match of `[a-zA-Z0-9_]{0,max}` at the start of `s`. */
  function HandleLength(s: string, max: nat): (n: nat)
    ensures n <= max && n <= |s|
    ensures forall i :: 0 <= i < n ==> IsHandleChar(s[i])
    ensures n < max && n < |s| ==> !IsHandleChar(s[n])
    decreases max
  {
    if max == 0 || |s| == 0 || !IsHandleChar(s[0]) then 0 else 1 + HandleLength(s[1..], max - 1)
  }

  /** The replacement text for the handle `h`. */
  function ProfileLink(h: string): string {
    "[@" + h + "](http://x.com/" + h + ")"
  }

  /** The substitution: scan left to right; an '@' followed by at least one
      handle character is replaced, with the handle taken greedily up to 15
      characters, and the scan resumes after the match; any other character
      is copied. */
  function LinkMentions(s: string): string
    decreases |s|
  {
    if |s| == 0 then ""
    else if s[0] == '@' && HandleLength(s[1..], MaxHandle) > 0 then
      var n := HandleLength(s[1..], MaxHandle);
      ProfileLink(s[1..1 + n]) + LinkMentions(s[1 + n..])
    else [s[0]] + LinkMentions(s[1..])
  }

  /** Text without an '@' is copied unchanged, in front of whatever follows;
      the empty text stays empty, so an '@'-free text comes out as it went in. */
  lemma {:induction false} LinkMentionsPlain(a: string, b: string)
    requires '@' !in a
    ensures LinkMentions(a + b) == a + LinkMentions(b)
    ensures LinkMentions("") == ""
    ensures LinkMentions(a) == a
  {
    LinkMentionsPlainPrefix(a, b);
    LinkMentionsPlainPrefix(a, "");
    assert a + "" == a;
  }

  lemma {:induction false} LinkMentionsPlainPrefix(a: string, b: string)
    requires '@' !in a
    ensures LinkMentions(a + b) == a + LinkMentions(b)
    decreases |a|
  {
    if |a| > 0 {
      assert (a + b)[0] == a[0];
      assert (a + b)[1..] == a[1..] + b;
      LinkMentionsPlainPrefix(a[1..], b);
      assert a == [a[0]] + a[1..];
    } else {
      assert a + b == b;
    }
  }

  lemma {:induction false} HandleLengthOf(h: string, b: string, max: nat)
    requires |h| <= max
    requires forall i :: 0 <= i < |h| ==> IsHandleChar(h[i])
    requires |h| == max || |b| == 0 || !IsHandleChar(b[0])
    ensures HandleLength(h + b, max) == |h|
    decreases |h|
  {
    if |h| > 0 {
      assert (h + b)[1..] == h[1..] + b;
      HandleLengthOf(h[1..], b, max - 1);
    } else {
      assert h + b == b;
    }
  }

  /** An '@' followed by a maximal handle of 1 to 15 characters (or by exactly
      15 handle characters, whatever follows) becomes a profile link. */
  lemma LinkMentionsHandle(h: string, b: string)
    requires 1 <= |h| <= MaxHandle
    requires forall i :: 0 <= i < |h| ==> IsHandleChar(h[i])
    requires |h| == MaxHandle || |b| == 0 || !IsHandleChar(b[0])
    ensures LinkMentions("@" + h + b) == ProfileLink(h) + LinkMentions(b)
  {
    var s := "@" + h + b;
    assert s[1..] == h + b;
    HandleLengthOf(h, b, MaxHandle);
    assert s[1..1 + |h|] == h;
    assert s[1 + |h|..] == b;
  }

  /** An '@' not followed by a handle character is kept as it is. */
  lemma LinkMentionsBareAt(b: string)
    requires |b| == 0 || !IsHandleChar(b[0])
    ensures LinkMentions("@" + b) == "@" + LinkMentions(b)
  {
    var s := "@" + b;
    assert s[1..] == b;
  }
}
