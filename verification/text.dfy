/** The two string operations the coordinate handling relies on, as Python
    defines them: `str.strip()` with no argument and `str.split(sep)` with an
    explicit one-character separator. */
module Text {

  /** The 29 characters for which Python's `str.isspace()` holds;
      `str.strip()` with no argument removes exactly these from both ends. */
  const SpaceChars: set<char> := {
    '\t', '\n', '\U{B}', '\U{C}', '\r', '\U{1C}', '\U{1D}', '\U{1E}', '\U{1F}', ' ',
    '\U{85}', '\U{A0}', '\U{1680}',
    '\U{2000}', '\U{2001}', '\U{2002}', '\U{2003}', '\U{2004}', '\U{2005}',
    '\U{2006}', '\U{2007}', '\U{2008}', '\U{2009}', '\U{200A}',
    '\U{2028}', '\U{2029}', '\U{202F}', '\U{205F}', '\U{3000}'
  }

  /** Every character of `s` is one of `chars`. */
  predicate AllIn(s: string, chars: set<char>) {
    forall k :: 0 <= k < |s| ==> s[k] in chars
  }

  /** `s` neither starts nor ends with one of `chars`. */
  predicate Trimmed(s: string, chars: set<char>) {
    |s| == 0 || (s[0] !in chars && s[|s| - 1] !in chars)
  }

  /** `s` is `core` with characters of `chars` around it: `pre` in front and
      `post` behind. */
  predicate Padding(s: string, pre: string, core: string, post: string, chars: set<char>) {
    AllIn(pre, chars) && AllIn(post, chars) && s == pre + core + post
  }

  /** Python's left strip index: starting at `i`, the index of the first
      character that is not one of `chars`, or `|s|` when there is none. */
  function LeadEnd(s: string, chars: set<char>, i: nat): (n: nat)
    requires i <= |s|
    ensures i <= n <= |s|
    ensures forall k :: i <= k < n ==> s[k] in chars
    ensures n == |s| || s[n] !in chars
    decreases |s| - i
  {
    if i < |s| && s[i] in chars then LeadEnd(s, chars, i + 1) else i
  }

  /** Python's right strip index: moving down from `j`, but never below
      `lo`, the index just past the last character that is not one of
      `chars`. */
  function TrailStart(s: string, chars: set<char>, lo: nat, j: nat): (n: nat)
    requires lo <= j <= |s|
    ensures lo <= n <= j
    ensures forall k :: n <= k < j ==> s[k] in chars
    ensures n == lo || s[n - 1] !in chars
    decreases j
  {
    if j > lo && s[j - 1] in chars then TrailStart(s, chars, lo, j - 1) else j
  }

  /** The left strip index is determined by its contract: any index that ends
      a run of `chars` starting at `i` is the one LeadEnd finds. */
  lemma LeadEndUnique(s: string, chars: set<char>, i: nat, n: nat)
    requires i <= n <= |s|
    requires forall k :: i <= k < n ==> s[k] in chars
    requires n == |s| || s[n] !in chars
    ensures LeadEnd(s, chars, i) == n
  {
  }

  /** The right strip index is determined by its contract in the same way. */
  lemma TrailStartUnique(s: string, chars: set<char>, lo: nat, j: nat, n: nat)
    requires lo <= n <= j <= |s|
    requires forall k :: n <= k < j ==> s[k] in chars
    requires n == lo || s[n - 1] !in chars
    ensures TrailStart(s, chars, lo, j) == n
  {
  }

  /** Python's `s.strip(chars)`: the characters of `chars` at both ends
      removed, so that the result has none of them at either end. */
  function StripChars(s: string, chars: set<char>): (r: string)
    ensures |r| <= |s|
    ensures Trimmed(r, chars)
  {
    var i := LeadEnd(s, chars, 0);
    s[i..TrailStart(s, chars, i, |s|)]
  }

  /** What StripChars removes consists of `chars` only: the input is the
      result with characters of `chars` in front and behind. */
  lemma StripCharsPadding(s: string, chars: set<char>)
    ensures exists pre, post :: Padding(s, pre, StripChars(s, chars), post, chars)
  {
    var i := LeadEnd(s, chars, 0);
    var j := TrailStart(s, chars, i, |s|);
    var pre, r, post := s[..i], s[i..j], s[j..];
    assert StripChars(s, chars) == r;
    assert AllIn(pre, chars) by {
      forall k | 0 <= k < |pre| ensures pre[k] in chars {
        assert pre[k] == s[k];
      }
    }
    assert AllIn(post, chars) by {
      forall k | 0 <= k < |post| ensures post[k] in chars {
        assert post[k] == s[j + k];
      }
    }
    assert s == pre + r + post;
    assert Padding(s, pre, r, post, chars);
  }

  /** Python's `s.strip()`: whitespace removed from both ends. */
  function Strip(s: string): (r: string)
    ensures |r| <= |s|
    ensures Trimmed(r, SpaceChars)
  {
    StripChars(s, SpaceChars)
  }

  /** Python's `sep.join(parts)`. */
  function Join(parts: seq<string>, sep: char): string {
    if |parts| == 0 then ""
    else if |parts| == 1 then parts[0]
    else parts[0] + [sep] + Join(parts[1..], sep)
  }

  /** Python's `s.split(sep)`: at least one part (the empty string gives one
      empty part), none of them containing `sep`, and joining them with `sep`
      gives `s` back. */
  function Split(s: string, sep: char): (parts: seq<string>)
    ensures |parts| >= 1
    ensures forall i :: 0 <= i < |parts| ==> sep !in parts[i]
    ensures Join(parts, sep) == s
    decreases |s|
  {
    if |s| == 0 then [""]
    else
      var rest := Split(s[1..], sep);
      if s[0] == sep then
        assert Join([""] + rest, sep) == "" + [sep] + Join(rest, sep) by {
          assert ([""] + rest)[1..] == rest;
        }
        assert s == [sep] + s[1..];
        [""] + rest
      else
        var head := [s[0]] + rest[0];
        var parts := [head] + rest[1..];
        assert sep !in head;
        JoinConsHead(s[0], rest, sep);
        assert s == [s[0]] + s[1..];
        parts
  }

  /** Putting a character in front of the first part puts it in front of the
      joined string. */
  lemma JoinConsHead(c: char, parts: seq<string>, sep: char)
    requires |parts| >= 1
    ensures Join([[c] + parts[0]] + parts[1..], sep) == [c] + Join(parts, sep)
  {
    var parts' := [[c] + parts[0]] + parts[1..];
    assert parts'[1..] == parts[1..];
  }

  /** The split has a single part exactly when the separator does not occur;
      with two or more parts the text holds a separator. */
  lemma SplitSingle(s: string, sep: char)
    ensures |Split(s, sep)| == 1 <==> sep !in s
  {
    var parts := Split(s, sep);
    if |parts| == 1 {
      assert s == parts[0];
    } else {
      assert s == parts[0] + [sep] + Join(parts[1..], sep);
      assert s[|parts[0]|] == sep;
    }
  }

  /** Splitting a separator-free head followed by the separator peels off
      exactly that head. */
  lemma {:induction false} SplitAfterHead(head: string, sep: char, tail: string)
    requires sep !in head
    ensures Split(head + [sep] + tail, sep) == [head] + Split(tail, sep)
    decreases |head|
  {
    if |head| == 0 {
      assert head + [sep] + tail == [sep] + tail;
      assert ([sep] + tail)[1..] == tail;
    } else {
      var s := head + [sep] + tail;
      assert s[0] == head[0] && s[0] != sep;
      assert s[1..] == head[1..] + [sep] + tail;
      SplitAfterHead(head[1..], sep, tail);
      var rest := Split(s[1..], sep);
      assert rest == [head[1..]] + Split(tail, sep);
      assert rest[0] == head[1..] && rest[1..] == Split(tail, sep);
      assert Split(s, sep) == [[s[0]] + rest[0]] + rest[1..];
      assert [head[0]] + head[1..] == head;
    }
  }

  /** A separator-free string splits into itself alone. */
  lemma {:induction false} SplitNoSeparator(s: string, sep: char)
    requires sep !in s
    ensures Split(s, sep) == [s]
    decreases |s|
  {
    if |s| > 0 {
      SplitNoSeparator(s[1..], sep);
      assert [s[0]] + s[1..] == s;
    }
  }

  /** Split inverts Join: separator-free parts are recovered exactly. */
  lemma {:induction false} SplitJoin(parts: seq<string>, sep: char)
    requires |parts| >= 1
    requires forall i :: 0 <= i < |parts| ==> sep !in parts[i]
    ensures Split(Join(parts, sep), sep) == parts
    decreases |parts|
  {
    if |parts| == 1 {
      SplitNoSeparator(parts[0], sep);
    } else {
      SplitJoin(parts[1..], sep);
      SplitAfterHead(parts[0], sep, Join(parts[1..], sep));
      assert [parts[0]] + parts[1..] == parts;
    }
  }

  /** StripChars gives the unique trimmed core: characters of `chars` added
      around a trimmed string are removed again, and nothing else is. */
  lemma StripPadded(pre: string, s: string, post: string, chars: set<char>)
    requires AllIn(pre, chars) && AllIn(post, chars)
    requires Trimmed(s, chars)
    ensures StripChars(pre + s + post, chars) == s
  {
    var t := pre + s + post;
    var i, j := |pre|, |pre| + |s|;
    assert forall k :: 0 <= k < i ==> t[k] == pre[k];
    assert forall k :: i <= k < j ==> t[k] == s[k - i];
    assert forall k :: j <= k < |t| ==> t[k] == post[k - j];
    if s == [] {
      LeadEndUnique(t, chars, 0, |t|);
      assert TrailStart(t, chars, |t|, |t|) == |t|;
    } else {
      LeadEndUnique(t, chars, 0, i);
      TrailStartUnique(t, chars, i, |t|, j);
      assert t[i..j] == s;
    }
  }

  /** Text that neither begins nor ends with whitespace is left as it is. */
  lemma StripTrimmed(s: string)
    requires Trimmed(s, SpaceChars)
    ensures Strip(s) == s
  {
    assert "" + s + "" == s;
    StripPadded("", s, "", SpaceChars);
  }

  /** Stripping twice is stripping once. */
  lemma StripIdempotent(s: string)
    ensures Strip(Strip(s)) == Strip(s)
  {
    StripTrimmed(Strip(s));
  }
}
