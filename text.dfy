/** Substring containment, the only thing the service's messages are judged by. */
module Text {

  /** True when `part` occurs somewhere inside `s` (Python's `part in s` on strings). */
  predicate Contains(s: string, part: string)
    ensures Contains(s, part) ==> |part| <= |s|
    decreases |s|
  {
    part <= s || (|s| > 0 && Contains(s[1..], part))
  }

  /** Containment means `part` starts at some offset of `s`. */
  lemma {:induction false} ContainsAtOffset(s: string, part: string)
    ensures Contains(s, part) <==> exists i :: 0 <= i <= |s| && part <= s[i..]
    decreases |s|
  {
    if |s| > 0 {
      ContainsAtOffset(s[1..], part);
      if exists i :: 0 <= i <= |s| && part <= s[i..] {
        var i :| 0 <= i <= |s| && part <= s[i..];
        if i > 0 {
          assert s[1..][i - 1..] == s[i..];
        }
      }
      if Contains(s[1..], part) {
        var j :| 0 <= j <= |s| - 1 && part <= s[1..][j..];
        assert s[1..][j..] == s[j + 1..];
      }
    } else {
      assert s[0..] == s;
    }
  }

  /** Whatever surrounds a piece of text, the whole still contains it. */
  lemma {:induction false} ContainsInfix(pre: string, part: string, post: string)
    ensures Contains(pre + part + post, part)
  {
    if pre == [] {
      assert pre + part + post == part + post;
    } else {
      assert (pre + part + post)[1..] == pre[1..] + part + post;
      ContainsInfix(pre[1..], part, post);
    }
  }

  /** The special case of a prefix and a suffix, which are the common shapes of a message. */
  lemma ContainsEnds(pre: string, part: string)
    ensures Contains(pre + part, part)
    ensures Contains(part + pre, part)
  {
    ContainsInfix(pre, part, "");
    assert pre + part + "" == pre + part;
    ContainsInfix("", part, pre);
    assert "" + part + pre == part + pre;
  }

  /** A message assembled from four pieces contains the first, second and fourth of them. */
  lemma ContainsPieces(p: string, x: string, q: string, y: string)
    ensures Contains(p + x + q + y, p)
    ensures Contains(p + x + q + y, x)
    ensures Contains(p + x + q + y, y)
  {
    var m := p + x + q + y;
    assert m == "" + p + (x + q + y);
    ContainsInfix("", p, x + q + y);
    assert m == p + x + (q + y);
    ContainsInfix(p, x, q + y);
    assert m == (p + x + q) + y + "";
    ContainsInfix(p + x + q, y, "");
  }
}
