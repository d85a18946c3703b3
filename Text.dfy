/**
 * The string operations the user model relies on: Rails' `blank?`,
 * Ruby's `String#strip` and `String#downcase`, restricted to ASCII.
 * The functions carry no quantified postconditions, so that reasoning
 * about accounts does not drag their internals along; what they compute
 * is stated by the lemmas that follow them.
 */
module Text {

  /** ASCII whitespace, the characters `blank?` and the `\s` of a regular
      expression accept: space, tab, line feed, vertical tab, form feed and
      carriage return. */
  predicate IsSpace(ch: char) {
    ch == ' ' || ch == '\t' || ch == '\n' || ch == '\U{0B}' || ch == '\U{0C}' || ch == '\r'
  }

  /** An empty or whitespace-only string (`"".blank?`, `"  ".blank?`). */
  predicate Blank(s: string) {
    forall k | 0 <= k < |s| :: IsSpace(s[k])
  }

  /** The characters `String#strip` removes: NUL and ASCII whitespace. */
  predicate IsStripped(ch: char) {
    ch == '\0' || IsSpace(ch)
  }

  /** A string `strip` removes entirely. */
  predicate StripsAway(s: string) {
    forall k | 0 <= k < |s| :: IsStripped(s[k])
  }

  /** Removes leading NUL and whitespace. */
  function TrimLeft(s: string): string {
    if |s| > 0 && IsStripped(s[0]) then TrimLeft(s[1..]) else s
  }

  /** Removes trailing NUL and whitespace. */
  function TrimRight(s: string): string {
    if |s| > 0 && IsStripped(s[|s| - 1]) then TrimRight(s[..|s| - 1]) else s
  }

  /** `String#strip`: removes NUL and whitespace at both ends. */
  function Strip(s: string): string {
    TrimRight(TrimLeft(s))
  }

  /** `TrimLeft` keeps a suffix, drops only characters `strip` removes, and
      what it keeps does not start with one. */
  lemma {:induction false} TrimLeftSpec(s: string)
    ensures |TrimLeft(s)| <= |s| && TrimLeft(s) == s[|s| - |TrimLeft(s)|..]
    ensures StripsAway(s[..|s| - |TrimLeft(s)|])
    ensures TrimLeft(s) == [] || !IsStripped(TrimLeft(s)[0])
  {
    if |s| > 0 && IsStripped(s[0]) {
      TrimLeftSpec(s[1..]);
      var r := TrimLeft(s[1..]);
      assert s[..|s| - |r|] == [s[0]] + s[1..][..|s| - 1 - |r|];
    } else {
      assert s[..0] == [];
    }
  }

  /** `TrimRight` keeps a prefix, drops only characters `strip` removes,
      and what it keeps does not end with one. */
  lemma {:induction false} TrimRightSpec(s: string)
    ensures |TrimRight(s)| <= |s| && TrimRight(s) == s[..|TrimRight(s)|]
    ensures StripsAway(s[|TrimRight(s)|..])
    ensures TrimRight(s) == [] || !IsStripped(TrimRight(s)[|TrimRight(s)| - 1])
  {
    if |s| > 0 && IsStripped(s[|s| - 1]) {
      TrimRightSpec(s[..|s| - 1]);
      var r := TrimRight(s[..|s| - 1]);
      assert s[|r|..] == s[..|s| - 1][|r|..] + [s[|s| - 1]];
    } else {
      assert s[|s|..] == [];
    }
  }

  /** What `strip` keeps has no NUL or whitespace at either end, and it
      keeps nothing exactly when the string is made of those only (so, in
      particular, when it is blank). */
  lemma StripSpec(s: string)
    ensures Strip(s) == [] || (!IsStripped(Strip(s)[0]) && !IsStripped(Strip(s)[|Strip(s)| - 1]))
    ensures Strip(s) == [] <==> StripsAway(s)
    ensures Blank(s) ==> Strip(s) == []
  {
    TrimLeftSpec(s);
    var t := TrimLeft(s);
    TrimRightSpec(t);
    assert s[..|s| - |t|] + t == s;
    if StripsAway(s) && t != [] {
      assert false;
    }
    if Strip(s) == [] {
      assert t[0..] == t;
      assert t == [];
      assert s[..|s|] == s;
    }
  }

  /** What `strip` keeps is a slice of the string between a removable
      prefix and a removable suffix. */
  lemma StripKeeps(s: string)
    ensures exists i, j | 0 <= i <= j <= |s| ::
              Strip(s) == s[i..j] && StripsAway(s[..i]) && StripsAway(s[j..])
  {
    TrimLeftSpec(s);
    var t := TrimLeft(s);
    TrimRightSpec(t);
    var i, j := |s| - |t|, |s| - |t| + |TrimRight(t)|;
    assert Strip(s) == s[i..j];
    assert s[j..] == t[|TrimRight(t)|..];
  }

  predicate IsUpper(ch: char) {
    'A' <= ch <= 'Z'
  }

  /** `downcase` on one ASCII character. */
  function LowerChar(ch: char): (r: char)
    ensures !IsUpper(r)
    ensures IsStripped(r) <==> IsStripped(ch)
  {
    if IsUpper(ch) then (ch as int + 32) as char else ch
  }

  /** `String#downcase`, ASCII letters only. */
  function Lower(s: string): (r: string)
    ensures |r| == |s|
  {
    if s == [] then [] else [LowerChar(s[0])] + Lower(s[1..])
  }

  /** `Lower` lower-cases each character in place. */
  lemma {:induction false} LowerAt(s: string, k: nat)
    requires k < |s|
    ensures Lower(s)[k] == LowerChar(s[k])
  {
    if k > 0 {
      LowerAt(s[1..], k - 1);
    }
  }

  /** `Lower` lower-cases every character in place. */
  lemma LowerPointwise(s: string)
    ensures forall k | 0 <= k < |s| :: Lower(s)[k] == LowerChar(s[k])
  {
    forall k | 0 <= k < |s| ensures Lower(s)[k] == LowerChar(s[k]) {
      LowerAt(s, k);
    }
  }

  /** Lower-casing twice is lower-casing once. */
  lemma LowerIdempotent(s: string)
    ensures Lower(Lower(s)) == Lower(s)
  {
    LowerPointwise(s);
    LowerPointwise(Lower(s));
  }

  /** Lower-casing distributes over concatenation. */
  lemma {:induction false} LowerAppend(a: string, b: string)
    ensures Lower(a + b) == Lower(a) + Lower(b)
  {
    if a == [] {
      assert a + b == b;
    } else {
      assert (a + b)[0] == a[0];
      assert (a + b)[1..] == a[1..] + b;
      LowerAppend(a[1..], b);
    }
  }

  lemma {:induction false} TrimLeftLower(s: string)
    ensures TrimLeft(Lower(s)) == Lower(TrimLeft(s))
  {
    if |s| > 0 {
      assert Lower(s)[1..] == Lower(s[1..]);
      if IsStripped(s[0]) {
        TrimLeftLower(s[1..]);
      }
    }
  }

  lemma {:induction false} TrimRightLower(s: string)
    ensures TrimRight(Lower(s)) == Lower(TrimRight(s))
  {
    if |s| > 0 {
      var n := |s| - 1;
      assert s == s[..n] + [s[n]];
      LowerAppend(s[..n], [s[n]]);
      assert Lower(s)[..n] == Lower(s[..n]);
      if IsStripped(s[n]) {
        TrimRightLower(s[..n]);
      }
    }
  }

  /** Stripping and lower-casing commute. */
  lemma StripLower(s: string)
    ensures Strip(Lower(s)) == Lower(Strip(s))
  {
    TrimLeftLower(s);
    TrimRightLower(TrimLeft(s));
  }

  /** Leading NUL or whitespace does not change what `TrimLeft` keeps. */
  lemma {:induction false} TrimLeftPadded(pre: string, s: string)
    requires StripsAway(pre)
    ensures TrimLeft(pre + s) == TrimLeft(s)
  {
    if pre == [] {
      assert pre + s == s;
    } else {
      assert (pre + s)[0] == pre[0];
      assert (pre + s)[1..] == pre[1..] + s;
      TrimLeftPadded(pre[1..], s);
    }
  }

  /** Trailing NUL or whitespace does not change what `TrimRight` keeps. */
  lemma {:induction false} TrimRightPadded(s: string, post: string)
    requires StripsAway(post)
    ensures TrimRight(s + post) == TrimRight(s)
  {
    if post == [] {
      assert s + post == s;
    } else {
      var n := |post| - 1;
      assert (s + post)[|s + post| - 1] == post[n];
      assert (s + post)[..|s + post| - 1] == s + post[..n];
      TrimRightPadded(s, post[..n]);
    }
  }

  /** Trailing NUL or whitespace survives `TrimLeft` unless `strip` removes
      the whole string. */
  lemma {:induction false} TrimLeftKeepsTail(s: string, post: string)
    requires StripsAway(post)
    ensures TrimLeft(s + post) == if StripsAway(s) then [] else TrimLeft(s) + post
  {
    if s == [] {
      assert s + post == post;
      TrimLeftPadded(post, []);
      assert post + [] == post;
    } else {
      assert (s + post)[0] == s[0];
      assert (s + post)[1..] == s[1..] + post;
      if IsStripped(s[0]) {
        TrimLeftKeepsTail(s[1..], post);
        assert StripsAway(s) <==> StripsAway(s[1..]) by {
          if StripsAway(s[1..]) {
            forall k | 0 <= k < |s| ensures IsStripped(s[k]) {
              if k > 0 { assert s[k] == s[1..][k - 1]; }
            }
          }
        }
      }
    }
  }

  /** NUL or whitespace around a string does not change what `strip`
      keeps: `"  123@abc.com  ".strip == "123@abc.com".strip`. */
  lemma StripPadded(pre: string, s: string, post: string)
    requires StripsAway(pre) && StripsAway(post)
    ensures Strip(pre + s + post) == Strip(s)
  {
    assert pre + s + post == pre + (s + post);
    TrimLeftPadded(pre, s + post);
    TrimLeftKeepsTail(s, post);
    if !StripsAway(s) {
      TrimRightPadded(TrimLeft(s), post);
    } else {
      StripSpec(s);
    }
  }

  /** A string without NUL or whitespace at either end is its own
      `strip`. */
  lemma StripTight(s: string)
    requires s == [] || (!IsStripped(s[0]) && !IsStripped(s[|s| - 1]))
    ensures Strip(s) == s
  {
  }

  /** Stripping twice is stripping once. */
  lemma StripIdempotent(s: string)
    ensures Strip(Strip(s)) == Strip(s)
  {
    StripSpec(s);
    StripTight(Strip(s));
  }
}
