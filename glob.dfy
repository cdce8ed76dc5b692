/// Shell-style wildcard matching as done by Python's `fnmatch.fnmatch` on
/// POSIX (where it is case sensitive): `*` matches any run of characters,
/// `?` any one character, `[...]` one character of a set, `[!...]` one
/// character outside it; an unclosed `[` is a literal.
module Glob {
  import opened Values

  /** One member of a bracket expression: a single character or a range `lo-hi`. */
  datatype ClassItem = Single(ch: char) | Span(lo: char, hi: char)

  /** A parsed bracket expression; `width` is the number of pattern characters it spans. */
  datatype CharClass = CharClass(negated: bool, items: seq<ClassItem>, width: nat)

  predicate ItemMatches(it: ClassItem, c: char) {
    match it
    case Single(x) => c == x
    case Span(lo, hi) => lo <= c <= hi
  }

  predicate ClassMatches(cls: CharClass, c: char) {
    (exists k :: 0 <= k < |cls.items| && ItemMatches(cls.items[k], c)) != cls.negated
  }

  /** The members of a bracket body: a `-` between two characters makes a range,
      any other `-` (first or last) is literal. A range whose ends are out of
      order matches nothing. */
  function ParseItems(b: string): seq<ClassItem>
    decreases |b|
  {
    if |b| == 0 then []
    else if |b| >= 3 && b[1] == '-' then [Span(b[0], b[2])] + ParseItems(b[3..])
    else [Single(b[0])] + ParseItems(b[1..])
  }

  /** Index of the first `]` in `p` at or after `from`. */
  function FindClose(p: string, from: nat): (r: Option<nat>)
    requires from <= |p|
    ensures r.Some? ==> from <= r.value < |p| && p[r.value] == ']'
    ensures r.Some? ==> forall k :: from <= k < r.value ==> p[k] != ']'
    ensures r.None? ==> forall k :: from <= k < |p| ==> p[k] != ']'
    decreases |p| - from
  {
    if from == |p| then None
    else if p[from] == ']' then Some(from)
    else FindClose(p, from + 1)
  }

  /** The bracket expression that starts `p` (whose first character is `[`):
      an optional `!`, then a `]` that counts as a member when it comes first,
      then everything up to the next `]`. None when it is never closed. */
  function ParseClass(p: string): (r: Option<CharClass>)
    requires |p| > 0 && p[0] == '['
    ensures r.Some? ==> 2 <= r.value.width <= |p|
  {
    var neg := |p| > 1 && p[1] == '!';
    var start := if neg then 2 else 1;
    var from := if start < |p| && p[start] == ']' then start + 1 else start;
    match FindClose(p, from)
    case None => None
    case Some(j) => Some(CharClass(neg, ParseItems(p[start..j]), j + 1))
  }

  /** `fnmatch.fnmatch(s, p)`. */
  function Match(s: string, p: string): bool
    decreases |p|, |s|
  {
    if |p| == 0 then |s| == 0
    else if p[0] == '*' then Match(s, p[1..]) || (|s| > 0 && Match(s[1..], p))
    else if p[0] == '?' then |s| > 0 && Match(s[1..], p[1..])
    else if p[0] == '[' then
      match ParseClass(p)
      case None => |s| > 0 && s[0] == '[' && Match(s[1..], p[1..])
      case Some(cls) => |s| > 0 && ClassMatches(cls, s[0]) && Match(s[1..], p[cls.width..])
    else |s| > 0 && s[0] == p[0] && Match(s[1..], p[1..])
  }

  predicate IsMeta(c: char) {
    c == '*' || c == '?' || c == '['
  }

  /** A pattern without wildcard characters. */
  predicate IsLiteral(p: string) {
    forall k :: 0 <= k < |p| ==> !IsMeta(p[k])
  }

  /** A pattern with no wildcard matches exactly itself. */
  lemma {:induction false} LiteralMatch(s: string, p: string)
    requires IsLiteral(p)
    ensures Match(s, p) <==> s == p
    decreases |p|
  {
    if |p| > 0 && |s| > 0 {
      LiteralMatch(s[1..], p[1..]);
      if s[0] == p[0] {
        assert s == [s[0]] + s[1..];
        assert p == [p[0]] + p[1..];
      }
    }
  }

  /** A lone `*` matches every string. */
  lemma {:induction false} StarMatchesAll(s: string)
    ensures Match(s, "*")
    decreases |s|
  {
    if |s| > 0 {
      StarMatchesAll(s[1..]);
    }
  }

  /** `q*` for a literal `q` matches exactly the strings that start with `q`. */
  lemma {:induction false} PrefixStar(s: string, q: string)
    requires IsLiteral(q)
    ensures Match(s, q + "*") <==> StartsWith(s, q)
    decreases |q|
  {
    if |q| == 0 {
      assert q + "*" == "*";
      StarMatchesAll(s);
    } else {
      assert (q + "*")[1..] == q[1..] + "*";
      if |s| > 0 {
        PrefixStar(s[1..], q[1..]);
        if s[0] == q[0] && StartsWith(s[1..], q[1..]) {
          assert s[..|q|] == [s[0]] + s[1..][..|q| - 1];
        }
        if StartsWith(s, q) {
          assert s[1..][..|q| - 1] == s[..|q|][1..];
        }
      }
    }
  }

  /** `*q` for a literal `q` matches exactly the strings that end with `q`. */
  lemma {:induction false} StarSuffix(s: string, q: string)
    requires IsLiteral(q)
    ensures Match(s, "*" + q) <==> EndsWith(s, q)
    decreases |s|
  {
    var p := "*" + q;
    assert p[1..] == q;
    LiteralMatch(s, q);
    if |s| > 0 {
      StarSuffix(s[1..], q);
      if |s| > |q| {
        assert s[|s| - |q|..] == s[1..][|s| - 1 - |q|..];
      }
    }
  }

  /** `glob.escape`: each wildcard character is wrapped in a one-member bracket expression. */
  function Escape(t: string): (p: string)
    ensures |p| >= |t|
  {
    if |t| == 0 then ""
    else (if IsMeta(t[0]) then ['[', t[0], ']'] else [t[0]]) + Escape(t[1..])
  }

  /** An escaped string, used as a pattern, matches exactly the original string. */
  lemma {:induction false} EscapeMatchesExactly(s: string, t: string)
    ensures Match(s, Escape(t)) <==> s == t
    decreases |t|
  {
    if |t| > 0 {
      var p := Escape(t);
      if |s| > 0 {
        EscapeMatchesExactly(s[1..], t[1..]);
      }
      if IsMeta(t[0]) {
        assert p[..3] == ['[', t[0], ']'] && p[3..] == Escape(t[1..]);
        assert FindClose(p, 1) == Some(2) by {
          assert p[1] == t[0] && t[0] != ']';
        }
        assert p[1..2] == [t[0]];
        assert ParseItems([t[0]]) == [Single(t[0])];
        assert ParseClass(p) == Some(CharClass(false, [Single(t[0])], 3));
        var cls := CharClass(false, [Single(t[0])], 3);
        assert ItemMatches(cls.items[0], t[0]);
        assert ClassMatches(cls, t[0]);
        assert forall c :: ClassMatches(cls, c) <==> c == t[0] by {
          forall c ensures ClassMatches(cls, c) <==> c == t[0] {
            if ClassMatches(cls, c) {
              var k :| 0 <= k < |cls.items| && ItemMatches(cls.items[k], c);
            }
          }
        }
      } else {
        assert p[0] == t[0] && p[1..] == Escape(t[1..]);
      }
      if |s| > 0 && s[0] == t[0] && s[1..] == t[1..] {
        assert s == [s[0]] + s[1..];
        assert t == [t[0]] + t[1..];
      }
    }
  }
}
