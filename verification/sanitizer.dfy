/** Product-name cleaning done by the card classifier: one left-to-right pass
    that deletes every match of the pattern `<[^>]+>`, then Python's
    `str.strip()`. */
module Sanitizer {

  /** Python's `str.isspace()` for a single character. */
  predicate IsSpace(c: char)
  {
    || ('\t' <= c <= '\r')
    || ('\U{1C}' <= c <= ' ')
    || c == '\U{85}' || c == '\U{A0}' || c == '\U{1680}'
    || ('\U{2000}' <= c <= '\U{200A}')
    || c == '\U{2028}' || c == '\U{2029}' || c == '\U{202F}'
    || c == '\U{205F}' || c == '\U{3000}'
  }

  predicate AllSpace(s: string)
  {
    forall i :: 0 <= i < |s| ==> IsSpace(s[i])
  }

  /** No whitespace at either end. */
  predicate Trimmed(s: string)
  {
    |s| == 0 || (!IsSpace(s[0]) && !IsSpace(s[|s| - 1]))
  }

  /** Length of the whitespace run at the front of `s`. */
  function LeadingSpaces(s: string): (n: nat)
    ensures n <= |s|
    ensures AllSpace(s[..n])
    ensures n < |s| ==> !IsSpace(s[n])
  {
    if |s| > 0 && IsSpace(s[0]) then 1 + LeadingSpaces(s[1..]) else 0
  }

  /** Length of the whitespace run at the back of `s`. */
  function TrailingSpaces(s: string): (n: nat)
    ensures n <= |s|
    ensures AllSpace(s[|s| - n..])
    ensures n < |s| ==> !IsSpace(s[|s| - n - 1])
  {
    if |s| > 0 && IsSpace(s[|s| - 1]) then 1 + TrailingSpaces(s[..|s| - 1]) else 0
  }

  /** Python's `str.strip()` with no argument: the result is the infix of `s`
      left after removing whitespace margins, and it has no whitespace at
      either end. */
  function Strip(s: string): (r: string)
    ensures Trimmed(r)
    ensures LeadingSpaces(s) + |r| <= |s|
    ensures r == s[LeadingSpaces(s)..LeadingSpaces(s) + |r|]
    ensures AllSpace(s[..LeadingSpaces(s)])
    ensures AllSpace(s[LeadingSpaces(s) + |r|..])
  {
    var t := s[LeadingSpaces(s)..];
    t[..|t| - TrailingSpaces(t)]
  }

  /** A string with no whitespace at either end is its own strip. */
  lemma StripKeepsTrimmed(s: string)
    requires Trimmed(s)
    ensures Strip(s) == s
  {
  }

  /** Index of the first `>` in `s`, or `|s|` when there is none. */
  function CloseIndex(s: string): (k: nat)
    ensures k <= |s|
    ensures k < |s| ==> s[k] == '>'
    ensures forall i :: 0 <= i < k ==> s[i] != '>'
  {
    if |s| == 0 then 0 else if s[0] == '>' then 0 else 1 + CloseIndex(s[1..])
  }

  /** The first `>` is the one at `k` when none comes before it. */
  lemma CloseIndexAt(s: string, k: nat)
    requires k < |s| && s[k] == '>'
    requires forall i :: 0 <= i < k ==> s[i] != '>'
    ensures CloseIndex(s) == k
  {
  }

  /** `s[i..j+1]` is a match of `<[^>]+>`: a `<`, one or more characters
      other than `>`, then a `>`. */
  predicate TagAt(s: string, i: int, j: int)
  {
    && 0 <= i && i + 1 < j < |s|
    && s[i] == '<' && s[j] == '>'
    && forall k :: i < k < j ==> s[k] != '>'
  }

  /** Some substring of `s` matches `<[^>]+>`. */
  ghost predicate HasTag(s: string)
  {
    exists i, j :: TagAt(s, i, j)
  }

  /** The pattern `<[^>]+>` matches at the very start of `s`; the match ends at
      the first `>`, because `[^>]+` cannot run past it. */
  predicate TagAtFront(s: string)
  {
    |s| > 0 && s[0] == '<' && 2 <= CloseIndex(s) < |s|
  }

  /** Every `<` is either directly followed by `>` or has no `>` after it:
      the local shape of a string without tags. */
  predicate LtSafe(s: string)
  {
    forall i :: 0 <= i < |s| && s[i] == '<' ==>
      (i + 1 < |s| && s[i + 1] == '>') || '>' !in s[i + 1..]
  }

  lemma LtSafeHasNoTag(s: string)
    requires LtSafe(s)
    ensures !HasTag(s)
  {
    forall i, j | 0 <= i && i + 1 < j < |s| && s[i] == '<' && s[j] == '>'
      ensures !TagAt(s, i, j)
    {
      assert s[j] == s[i + 1..][j - i - 1];
    }
  }

  /** `r` is `s` with some characters deleted, the others kept in order. */
  predicate SubSeq(r: string, s: string)
    decreases |s|
  {
    if |r| == 0 then true
    else if |s| == 0 then false
    else (r[0] == s[0] && SubSeq(r[1..], s[1..])) || SubSeq(r, s[1..])
  }

  /** Deleting a prefix of `s` only removes characters. */
  lemma {:induction false} SubSeqDrop(r: string, s: string, k: nat)
    requires k <= |s| && SubSeq(r, s[k..])
    ensures SubSeq(r, s)
    decreases k
  {
    if k > 0 {
      assert s[1..][k - 1..] == s[k..];
      SubSeqDrop(r, s[1..], k - 1);
    }
  }

  /** Keeping the first character of `s` in front of a subsequence of the
      rest gives a subsequence of `s`. */
  lemma SubSeqKeepFirst(r: string, s: string)
    requires |s| > 0 && SubSeq(r, s[1..])
    ensures SubSeq([s[0]] + r, s)
  {
    assert ([s[0]] + r)[1..] == r;
  }

  /** `re.sub(r'<[^>]+>', '', s)`: scanning left to right, each match is
      deleted and scanning resumes after it; every other character is kept.
      The result is `s` with characters deleted, and it contains no match. */
  function StripTags(s: string): (r: string)
    ensures |r| <= |s|
    ensures forall k :: 0 <= k < |r| ==> r[k] in s
    ensures SubSeq(r, s)
    ensures LtSafe(r)
    decreases |s|
  {
    if |s| == 0 then ""
    else if TagAtFront(s) then
      var r := StripTags(s[CloseIndex(s) + 1..]);
      SubSeqDrop(r, s, CloseIndex(s) + 1);
      r
    else
      var rest := StripTags(s[1..]);
      assert s[0] == '<' ==> (|rest| > 0 && rest[0] == '>') || '>' !in rest by {
        if s[0] == '<' {
          if CloseIndex(s) < |s| {
            assert CloseIndex(s) == 1;
            assert s[1..][0] == '>';
            assert !TagAtFront(s[1..]);
          } else {
            assert CloseIndex(s) == |s|;
            assert '>' !in s[1..] by {
              forall k | 0 <= k < |s| - 1 ensures s[1..][k] != '>' {
                assert s[1..][k] == s[k + 1];
              }
            }
          }
        }
      }
      KeepFirst(s, rest);
      [s[0]] + rest
  }

  /** Keeping the first character of `s` in front of the processed rest
      keeps every remaining `<` harmless and deletes nothing else. */
  lemma KeepFirst(s: string, rest: string)
    requires |s| > 0 && LtSafe(rest) && SubSeq(rest, s[1..])
    requires forall k :: 0 <= k < |rest| ==> rest[k] in s[1..]
    requires s[0] == '<' ==> (|rest| > 0 && rest[0] == '>') || '>' !in rest
    ensures LtSafe([s[0]] + rest) && SubSeq([s[0]] + rest, s)
    ensures forall k :: 0 <= k < |[s[0]] + rest| ==> ([s[0]] + rest)[k] in s
  {
    var r := [s[0]] + rest;
    assert forall i :: 1 <= i < |r| ==> r[i] == rest[i - 1] && r[i + 1..] == rest[i..];
    assert forall c :: c in s[1..] ==> c in s;
    SubSeqKeepFirst(rest, s);
  }

  /** Text without `<` is copied through unchanged, and the rest of the
      string is processed as if it stood alone. */
  lemma {:induction false} StripTagsPlainPrefix(a: string, b: string)
    requires '<' !in a
    ensures StripTags(a + b) == a + StripTags(b)
    decreases |a|
  {
    if |a| == 0 {
      assert a + b == b;
    } else {
      ConsSplit(a, b, StripTags(b));
      StripTagsStep(a + b);
      StripTagsPlainPrefix(a[1..], b);
    }
  }

  /** How a non-empty `a` splits off its first character, inside `a + b` and
      in front of `u`. */
  lemma ConsSplit<T>(a: seq<T>, b: seq<T>, u: seq<T>)
    requires |a| > 0
    ensures (a + b)[0] == a[0] && a[0] in a
    ensures (a + b)[1..] == a[1..] + b
    ensures [a[0]] + (a[1..] + u) == a + u
    ensures forall x :: x in a[1..] ==> x in a
  {
  }

  /** Outside a match, the first character is kept. */
  lemma StripTagsStep(s: string)
    requires |s| > 0 && !TagAtFront(s)
    ensures StripTags(s) == [s[0]] + StripTags(s[1..])
  {
  }

  /** An empty pair `<>` is not a match: both characters are kept, and the
      rest is processed on its own. */
  lemma StripTagsEmptyBrackets(b: string)
    ensures StripTags("<>" + b) == "<>" + StripTags(b)
  {
    var s := "<>" + b;
    var t := ">" + b;
    assert s[0] == '<' && s[1] == '>' && s[1..] == t;
    CloseIndexAt(s, 1);
    StripTagsStep(s);
    assert t[0] == '>' && t[1..] == b;
    StripTagsStep(t);
    assert "<>" + StripTags(b) == [s[0]] + ([t[0]] + StripTags(b));
  }

  /** A match at the front is deleted whole, and scanning resumes right
      after its `>`. */
  lemma StripTagsDropsTag(m: string, b: string)
    requires |m| > 0 && '>' !in m
    ensures StripTags("<" + m + ">" + b) == StripTags(b)
  {
    var s := "<" + m + ">" + b;
    forall i | 0 <= i < |m| + 1 ensures s[i] != '>' {
      if i > 0 {
        assert s[i] == m[i - 1];
      }
    }
    assert s[|m| + 1] == '>';
    CloseIndexAt(s, |m| + 1);
    assert s[|m| + 2..] == b;
  }

  /** Deleting one character keeps a string free of tags. */
  lemma NoTagTail(s: string)
    requires |s| > 0 && !HasTag(s)
    ensures !HasTag(s[1..])
  {
    forall i, j | TagAt(s[1..], i, j) ensures TagAt(s, i + 1, j + 1) {
    }
  }

  /** An infix of a string without tags has no tags. */
  lemma NoTagInfix(s: string, a: nat, b: nat)
    requires a <= b <= |s| && !HasTag(s)
    ensures !HasTag(s[a..b])
  {
    forall i, j | TagAt(s[a..b], i, j) ensures TagAt(s, a + i, a + j) {
    }
  }

  /** Tag removal changes nothing in a string that has no tags. */
  lemma {:induction false} StripTagsKeepsTagFree(s: string)
    requires !HasTag(s)
    ensures StripTags(s) == s
    decreases |s|
  {
    if |s| > 0 {
      assert TagAtFront(s) ==> TagAt(s, 0, CloseIndex(s));
      NoTagTail(s);
      StripTagsKeepsTagFree(s[1..]);
    }
  }

  /** The product name stored by the watcher: tag-like runs deleted, then
      whitespace trimmed. The result contains no tag and no whitespace at
      either end. */
  function Sanitize(raw: string): (name: string)
    ensures !HasTag(name)
    ensures Trimmed(name)
  {
    var t := StripTags(raw);
    LtSafeHasNoTag(t);
    var name := Strip(t);
    NoTagInfix(t, LeadingSpaces(t), LeadingSpaces(t) + |name|);
    name
  }

  /** A plain, trimmed name wrapped in an element's opening and closing tags
      comes out as the bare name. */
  lemma SanitizeWrapped(element: string, plain: string)
    requires |element| > 0 && '>' !in element
    requires '<' !in plain && Trimmed(plain)
    ensures Sanitize("<" + element + ">" + plain + "</" + element + ">") == plain
  {
    StripTagsWrapped(element, plain);
    StripKeepsTrimmed(plain);
  }

  /** Tag removal on a name wrapped in opening and closing tags. */
  lemma StripTagsWrapped(element: string, plain: string)
    requires |element| > 0 && '>' !in element
    requires '<' !in plain
    ensures StripTags("<" + element + ">" + plain + "</" + element + ">") == plain
  {
    var slashed := "/" + element;
    var close := "<" + slashed + ">";
    WrappedShape(element, plain);
    StripTagsDropsTag(element, plain + close);
    StripTagsPlainPrefix(plain, close);
    NoCloseAfterSlash(element);
    StripTagsDropsTag(slashed, "");
    var empty: string := "";
    assert StripTags(empty) == empty;
    assert StripTags(close) == empty;
    assert plain + empty == plain;
  }

  lemma NoCloseAfterSlash(element: string)
    requires '>' !in element
    ensures '>' !in "/" + element
  {
    assert forall i :: 1 <= i < |"/" + element| ==> ("/" + element)[i] == element[i - 1];
  }

  lemma WrappedShape(element: string, plain: string)
    ensures "<" + element + ">" + plain + "</" + element + ">"
         == "<" + element + ">" + (plain + ("<" + ("/" + element) + ">"))
    ensures "<" + ("/" + element) + ">" == "<" + ("/" + element) + ">" + ""
  {
    assert "</" == "<" + "/";
  }

  /** Sanitising a sanitised name gives it back unchanged. */
  lemma SanitizeIdempotent(raw: string)
    ensures Sanitize(Sanitize(raw)) == Sanitize(raw)
  {
    var name := Sanitize(raw);
    StripTagsKeepsTagFree(name);
    StripKeepsTrimmed(name);
  }

  /** Text without any `<` only loses its whitespace margins. */
  lemma SanitizePlainText(raw: string)
    requires '<' !in raw
    ensures Sanitize(raw) == Strip(raw)
  {
    forall i, j | 0 <= i < |raw| ensures !TagAt(raw, i, j) {
      assert raw[i] in raw;
    }
    StripTagsKeepsTagFree(raw);
  }
}
