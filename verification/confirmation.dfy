/** The destructive-action gate: `input(...).strip().upper() == "DELETE"`. */
module Confirmation {

  /** Python's `str.isspace`, the characters `str.strip()` removes. */
  predicate IsSpace(c: char) {
    var n := c as int;
    || 0x09 <= n <= 0x0D || 0x1C <= n <= 0x20 || n == 0x85 || n == 0xA0 || n == 0x1680
    || 0x2000 <= n <= 0x200A || n == 0x2028 || n == 0x2029 || n == 0x202F || n == 0x205F || n == 0x3000
  }

  predicate AllSpace(s: string) {
    forall i :: 0 <= i < |s| ==> IsSpace(s[i])
  }

  /** The scan from the left: the first index at or after `k` that does not hold
      whitespace, or `|s|`. */
  function LeadingEnd(s: string, k: nat): (n: nat)
    requires k <= |s|
    ensures k <= n <= |s|
    ensures forall m :: k <= m < n ==> IsSpace(s[m])
    ensures n < |s| ==> !IsSpace(s[n])
    decreases |s| - k
  {
    if k < |s| && IsSpace(s[k]) then LeadingEnd(s, k + 1) else k
  }

  /** The scan from the right, never crossing `lo`: the end of `s[lo..k]` once its
      trailing whitespace is dropped. */
  function TrailingStart(s: string, lo: nat, k: nat): (n: nat)
    requires lo <= k <= |s|
    ensures lo <= n <= k
    ensures forall m :: n <= m < k ==> IsSpace(s[m])
    ensures n > lo ==> !IsSpace(s[n - 1])
    decreases k - lo
  {
    if k > lo && IsSpace(s[k - 1]) then TrailingStart(s, lo, k - 1) else k
  }

  /** `str.strip()`: the left scan first, then the right scan down to where the
      left scan stopped. */
  function Strip(s: string): (r: string)
    ensures |r| <= |s|
    ensures r == [] || (!IsSpace(r[0]) && !IsSpace(r[|r| - 1]))
    ensures (exists i :: 0 <= i < |s| && !IsSpace(s[i])) <==> r != []
    ensures exists i, j :: PaddedAt(s, i, j) && r == s[i..j]
  {
    var i := LeadingEnd(s, 0);
    StripIsMiddle(s);
    s[i..TrailingStart(s, i, |s|)]
  }

  /** Upper-casing of ASCII letters; every other character is kept. */
  function UpperChar(c: char): char {
    if 'a' <= c <= 'z' then (c as int - 32) as char else c
  }

  function Upper(s: string): (r: string)
    ensures |r| == |s|
    ensures forall i :: 0 <= i < |s| ==> r[i] == UpperChar(s[i])
    ensures forall i :: 0 <= i < |r| ==> !('a' <= r[i] <= 'z')
  {
    seq(|s|, i requires 0 <= i < |s| => UpperChar(s[i]))
  }

  const Keyword: string := "DELETE"

  /** The word DELETE with each letter in either case. */
  predicate IsKeywordAnyCase(w: string) {
    |w| == |Keyword|
    && forall k :: 0 <= k < |w| ==> w[k] == Keyword[k] || w[k] == (Keyword[k] as int + 32) as char
  }

  /** The operator's reply confirms deletion: once stripped, it spells DELETE in
      some mix of cases. */
  predicate Confirmed(reply: string)
    ensures Confirmed(reply) <==> IsKeywordAnyCase(Strip(reply))
  {
    var word := Strip(reply);
    UpperIsKeywordIff(word);
    Upper(word) == Keyword
  }

  lemma UpperIsKeywordIff(w: string)
    ensures Upper(w) == Keyword <==> IsKeywordAnyCase(w)
  {
    if Upper(w) == Keyword {
      UpperIsKeyword(w);
    }
    if IsKeywordAnyCase(w) {
      UpperOfKeyword(w);
    }
  }

  /** Where the left scan stops is fixed by the reply alone: the one index with
      whitespace before it and a non-space character at it. */
  lemma LeadingEndAt(s: string, i: nat)
    requires i < |s| && AllSpace(s[..i]) && !IsSpace(s[i])
    ensures LeadingEnd(s, 0) == i
  {
  }

  lemma TrailingStartAt(s: string, i: nat, j: nat)
    requires i < j <= |s| && AllSpace(s[j..]) && !IsSpace(s[j - 1])
    ensures TrailingStart(s, i, |s|) == j
  {
  }

  lemma UpperOfKeyword(word: string)
    requires IsKeywordAnyCase(word)
    ensures Upper(word) == Keyword
  {
    var u := Upper(word);
    forall k | 0 <= k < |Keyword|
      ensures u[k] == Keyword[k]
    {
      assert Keyword[k] in "DELT";
    }
  }

  /** A word spelling DELETE neither starts nor ends with whitespace. */
  lemma KeywordHasNoSpaceEnds(word: string)
    requires IsKeywordAnyCase(word)
    ensures !IsSpace(word[0]) && !IsSpace(word[|word| - 1])
  {
    assert Keyword[0] == 'D' && Keyword[5] == 'E';
    assert word[0] == 'D' || word[0] == 'd';
    assert word[5] == 'E' || word[5] == 'e';
  }

  /** The reply is whitespace up to `i` and after `j`. */
  predicate PaddedAt(reply: string, i: int, j: int) {
    0 <= i <= j <= |reply| && AllSpace(reply[..i]) && AllSpace(reply[j..])
  }

  /** The reply is whitespace up to `i`, DELETE in any case up to `j`, whitespace after. */
  predicate PaddedKeywordAt(reply: string, i: int, j: int) {
    PaddedAt(reply, i, j) && IsKeywordAnyCase(reply[i..j])
  }

  lemma PaddedKeywordAtConfirms(reply: string, i: int, j: int)
    requires PaddedKeywordAt(reply, i, j)
    ensures Confirmed(reply)
  {
    KeywordHasNoSpaceEnds(reply[i..j]);
    LeadingEndAt(reply, i);
    TrailingStartAt(reply, i, j);
    UpperOfKeyword(reply[i..j]);
  }

  /** DELETE in any case, surrounded by any whitespace, confirms. */
  lemma PaddedKeywordConfirms(pre: string, word: string, post: string)
    requires AllSpace(pre) && AllSpace(post) && IsKeywordAnyCase(word)
    ensures Confirmed(pre + word + post)
  {
    var s := pre + word + post;
    var i, j := |pre|, |pre| + |word|;
    assert s[..i] == pre && s[i..j] == word && s[j..] == post;
    PaddedKeywordAtConfirms(s, i, j);
  }

  lemma UpperCharMatches(c: char, k: char)
    requires 'A' <= k <= 'Z'
    requires UpperChar(c) == k
    ensures c == k || c == (k as int + 32) as char
  {
  }

  /** `strip()` cuts whitespace off both ends and keeps the middle of the string. */
  lemma StripIsMiddle(reply: string)
    ensures var i := LeadingEnd(reply, 0);
            PaddedAt(reply, i, TrailingStart(reply, i, |reply|))
  {
  }

  /** The words that upper-case to DELETE. */
  lemma UpperIsKeyword(w: string)
    requires Upper(w) == Keyword
    ensures IsKeywordAnyCase(w)
  {
    forall k | 0 <= k < |w|
      ensures w[k] == Keyword[k] || w[k] == (Keyword[k] as int + 32) as char
    {
      assert Upper(w)[k] == UpperChar(w[k]);
      assert Keyword[k] in "DELT";
      UpperCharMatches(w[k], Keyword[k]);
    }
  }

  /** What a confirming reply looks like. */
  lemma ConfirmedIsPaddedKeyword(reply: string)
    requires Confirmed(reply)
    ensures exists i, j :: PaddedKeywordAt(reply, i, j)
  {
    var i := LeadingEnd(reply, 0);
    var j := TrailingStart(reply, i, |reply|);
    StripIsMiddle(reply);
    UpperIsKeyword(Strip(reply));
    assert PaddedKeywordAt(reply, i, j);
  }

  /** The gate in both directions: a reply confirms exactly when it is whitespace,
      then DELETE in any mix of cases, then whitespace. */
  lemma ConfirmedIff(reply: string)
    ensures Confirmed(reply) <==> exists i, j :: PaddedKeywordAt(reply, i, j)
  {
    if Confirmed(reply) {
      ConfirmedIsPaddedKeyword(reply);
    }
    if exists i, j :: PaddedKeywordAt(reply, i, j) {
      var i, j :| PaddedKeywordAt(reply, i, j);
      PaddedKeywordAtConfirms(reply, i, j);
    }
  }

  /** A reply shorter than the keyword cannot confirm. */
  lemma ShortReplyCancels(reply: string)
    requires |reply| < |Keyword|
    ensures !Confirmed(reply)
  {
    assert |Upper(Strip(reply))| <= |reply|;
  }

  lemma LowerDeleteConfirms()
    ensures Confirmed(" delete\n")
  {
    var reply := " delete\n";
    assert AllSpace(reply[..1]) && AllSpace(reply[7..]);
    assert IsKeywordAnyCase(reply[1..7]);
    PaddedKeywordAtConfirms(reply, 1, 7);
  }

  /** Replies that cancel, and one that confirms. */
  lemma SampleReplies()
    ensures !Confirmed("")
    ensures !Confirmed("no")
    ensures Confirmed(" delete\n")
  {
    ShortReplyCancels("");
    ShortReplyCancels("no");
    LowerDeleteConfirms();
  }
}
