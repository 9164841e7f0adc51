/** Line splitting as done by `string.split(/\r\n|[\r\n]/g)` in toNodeStream
    (datajs/src/browser-utils/utils.js, line 35): a `\r\n` pair, a lone `\r`
    or a lone `\n` each separate two fragments; the pair is preferred over a
    lone `\r` because the alternation tries it first. */
module Lines {

  const CRLF: string := "\r\n"

  predicate IsBreak(c: char) {
    c == '\r' || c == '\n'
  }

  /** A fragment holding neither `\r` nor `\n`. */
  predicate NoBreak(s: string) {
    forall k :: 0 <= k < |s| ==> !IsBreak(s[k])
  }

  predicate AllNoBreak(parts: seq<string>) {
    forall k :: 0 <= k < |parts| ==> NoBreak(parts[k])
  }

  predicate EndsWithBreak(s: string) {
    |s| > 0 && IsBreak(s[|s| - 1])
  }

  function Last<T>(s: seq<T>): T
    requires |s| > 0
  {
    s[|s| - 1]
  }

  /** Every element of `s` but the last. */
  function Init<T>(s: seq<T>): seq<T>
    requires |s| > 0
  {
    s[..|s| - 1]
  }

  /** `parts` with the character `c` put in front of its first fragment. */
  function ConsFirst(c: char, parts: seq<string>): (r: seq<string>)
    requires |parts| > 0
    ensures |r| == |parts|
  {
    [[c] + parts[0]] + parts[1..]
  }

  /** Two splits put side by side, the last fragment of `front` fused with the
      first fragment of `back`. */
  function Glue(front: seq<string>, back: seq<string>): (r: seq<string>)
    requires |front| > 0 && |back| > 0
    ensures |r| == |front| + |back| - 1
  {
    front[..|front| - 1] + [Last(front) + back[0]] + back[1..]
  }

  /** How much of `s` its first step consumes: 2 for a `\r\n` pair, which
      the alternation prefers over a lone `\r`, and 1 otherwise. */
  function HeadLength(s: string): (n: nat)
    requires |s| > 0
    ensures 1 <= n <= |s|
  {
    if s[0] == '\r' && |s| >= 2 && s[1] == '\n' then 2 else 1
  }

  /** The split of `s` at every separator. JavaScript returns `[""]` for the
      empty string, and an empty fragment on each side of a separator that
      has nothing on that side. */
  function Split(s: string): (r: seq<string>)
    ensures |r| >= 1
    decreases |s|
  {
    if s == [] then [""]
    else
      var rest := Split(s[HeadLength(s)..]);
      if IsBreak(s[0]) then [""] + rest else ConsFirst(s[0], rest)
  }

  /** No fragment of a split holds a separator character. */
  lemma {:induction false} SplitNoBreak(s: string)
    ensures AllNoBreak(Split(s))
    decreases |s|
  {
    if s != [] {
      SplitNoBreak(s[HeadLength(s)..]);
      if !IsBreak(s[0]) {
        var rest := Split(s[1..]);
        assert NoBreak(rest[0]);
        assert NoBreak([s[0]] + rest[0]);
      }
    }
  }

  /** A text splits into one fragment only when that fragment is the text. */
  lemma {:induction false} SplitOne(s: string)
    ensures |Split(s)| == 1 ==> Split(s) == [s]
    decreases |s|
  {
    if s != [] && !IsBreak(s[0]) {
      SplitOne(s[1..]);
      assert [s[0]] + s[1..] == s;
    }
  }

  /** The fragments of `s` that a separator closes: all but the last. */
  function Fragments(s: string): (r: seq<string>)
    ensures |r| == |Split(s)| - 1
  {
    Split(s)[..|Split(s)| - 1]
  }

  /** The fragments joined again with one separator `sep` between neighbours. */
  function Join(parts: seq<string>, sep: string): string
    requires |parts| >= 1
    decreases |parts|
  {
    if |parts| == 1 then parts[0] else parts[0] + sep + Join(parts[1..], sep)
  }

  /** Reference rewriting: every separator of `s` replaced by a single `\n`. */
  function Normalize(s: string): (r: string)
    ensures forall k :: 0 <= k < |r| ==> r[k] != '\r'
    decreases |s|
  {
    if s == [] then ""
    else (if IsBreak(s[0]) then "\n" else [s[0]]) + Normalize(s[HeadLength(s)..])
  }

  lemma JoinConsFirst(c: char, parts: seq<string>, sep: string)
    requires |parts| >= 1
    ensures Join(ConsFirst(c, parts), sep) == [c] + Join(parts, sep)
  {
    var q := ConsFirst(c, parts);
    assert q[1..] == parts[1..];
  }

  /** Splitting and joining with `\n` only rewrites the separators: the text
      between separators is kept, in order, and nothing else changes. */
  lemma {:induction false} SplitThenJoin(s: string)
    ensures Join(Split(s), "\n") == Normalize(s)
    decreases |s|
  {
    if s != [] {
      var rest := Split(s[HeadLength(s)..]);
      SplitThenJoin(s[HeadLength(s)..]);
      if IsBreak(s[0]) {
        assert ([""] + rest)[1..] == rest;
      } else {
        JoinConsFirst(s[0], rest, "\n");
      }
    }
  }

  /** A text without separators followed by `t` splits like `t` with the
      text glued to the front of the first fragment. */
  lemma {:induction false} SplitPrefix(p: string, t: string)
    requires NoBreak(p)
    ensures Split(p + t) == [p + Split(t)[0]] + Split(t)[1..]
    decreases |p|
  {
    var st := Split(t);
    if p == [] {
      assert p + t == t;
      assert p + st[0] == st[0];
      assert [st[0]] + st[1..] == st;
    } else {
      assert (p + t)[0] == p[0] && !IsBreak(p[0]);
      assert (p + t)[1..] == p[1..] + t;
      SplitPrefix(p[1..], t);
      assert Split(p + t) == ConsFirst(p[0], [p[1..] + st[0]] + st[1..]);
      assert [p[0]] + (p[1..] + st[0]) == p + st[0];
    }
  }

  lemma {:induction false} JoinNotStartingWithLF(parts: seq<string>, sep: string)
    requires |parts| >= 1
    requires AllNoBreak(parts)
    requires |sep| > 0 && sep[0] == '\r'
    ensures var j := Join(parts, sep); j == [] || j[0] != '\n'
    decreases |parts|
  {
    if |parts| > 1 {
      var j := Join(parts, sep);
      if parts[0] != [] {
        assert NoBreak(parts[0]);
        assert j[0] == parts[0][0];
      } else {
        assert j == sep + Join(parts[1..], sep);
        assert j[0] == sep[0];
      }
    }
  }

  /** A separator in front of `rest` opens a new empty fragment, unless a
      lone `\r` would pair up with a `\n` starting `rest`. */
  lemma SplitAfterSeparator(sep: string, rest: string)
    requires sep == "\r\n" || sep == "\r" || sep == "\n"
    requires sep == "\r" ==> rest == [] || rest[0] != '\n'
    ensures Split(sep + rest) == [""] + Split(rest)
  {
    var t := sep + rest;
    assert t[0] == sep[0] && HeadLength(t) == |sep|;
    assert t[|sep|..] == rest;
  }

  /** Round trip: fragments without separators, joined with any one of the
      three separators, split back into exactly those fragments. */
  lemma {:induction false} JoinThenSplit(parts: seq<string>, sep: string)
    requires |parts| >= 1
    requires AllNoBreak(parts)
    requires sep == "\r\n" || sep == "\r" || sep == "\n"
    ensures Split(Join(parts, sep)) == parts
    decreases |parts|
  {
    if |parts| == 1 {
      SplitSingle(parts[0]);
    } else {
      JoinUncons(parts, sep);
      var rest := Join(parts[1..], sep);
      JoinThenSplit(parts[1..], sep);
      if sep != "\n" {
        JoinNotStartingWithLF(parts[1..], sep);
      }
      SplitJoinStep(parts[0], sep, rest, parts[1..]);
    }
  }

  /** Joining more than one fragment: the first, a separator, the rest. */
  lemma JoinUncons(parts: seq<string>, sep: string)
    requires |parts| >= 2 && AllNoBreak(parts)
    ensures NoBreak(parts[0]) && AllNoBreak(parts[1..])
    ensures Join(parts, sep) == parts[0] + (sep + Join(parts[1..], sep))
    ensures [parts[0]] + parts[1..] == parts
  {
    assert forall k :: 0 <= k < |parts| - 1 ==> parts[1..][k] == parts[k + 1];
  }

  lemma SplitSingle(p: string)
    requires NoBreak(p)
    ensures Split(p) == [p]
  {
    SplitPrefix(p, "");
    assert p + "" == p;
  }

  lemma SplitJoinStep(p: string, sep: string, rest: string, tail: seq<string>)
    requires NoBreak(p)
    requires sep == "\r\n" || sep == "\r" || sep == "\n"
    requires sep == "\r" ==> rest == [] || rest[0] != '\n'
    requires Split(rest) == tail
    ensures Split(p + (sep + rest)) == [p] + tail
  {
    SplitAfterSeparator(sep, rest);
    SplitBeforeSeparator(p, sep + rest, tail);
  }

  lemma SplitBeforeSeparator(p: string, t: string, tail: seq<string>)
    requires NoBreak(p)
    requires Split(t) == [""] + tail
    ensures Split(p + t) == [p] + tail
  {
    SplitPrefix(p, t);
    assert p + "" == p;
    assert ([""] + tail)[1..] == tail;
  }

  /** The last fragment is empty exactly when the text is empty or ends with a
      separator. */
  lemma {:induction false} LastFragmentEmpty(s: string)
    ensures Last(Split(s)) == "" <==> (s == "" || EndsWithBreak(s))
    decreases |s|
  {
    if s != [] {
      var n := HeadLength(s);
      var t := s[n..];
      LastFragmentEmpty(t);
      if t != [] {
        assert t[|t| - 1] == s[|s| - 1];
      }
      if IsBreak(s[0]) {
        assert Last(Split(s)) == Last(Split(t));
        assert t == [] ==> IsBreak(s[|s| - 1]);
      } else {
        var rest := Split(t);
        if |rest| == 1 {
          SplitOne(t);
          assert Last(Split(s)) == [s[0]] + t;
        } else {
          assert Last(Split(s)) == Last(rest);
        }
      }
    }
  }

  lemma GlueEmptyFirst(front: seq<string>, back: seq<string>)
    requires |front| > 0 && |back| > 0
    ensures Glue([""] + front, back) == [""] + Glue(front, back)
  {
    var f := [""] + front;
    assert f[..|f| - 1] == [""] + front[..|front| - 1];
  }

  lemma GlueConsFirst(c: char, front: seq<string>, back: seq<string>)
    requires |front| > 0 && |back| > 0
    ensures Glue(ConsFirst(c, front), back) == ConsFirst(c, Glue(front, back))
  {
    var f := ConsFirst(c, front);
    var g := Glue(front, back);
    if |front| == 1 {
      assert g == [front[0] + back[0]] + back[1..];
      assert Glue(f, back) == [([c] + front[0]) + back[0]] + back[1..];
      assert [c] + (front[0] + back[0]) == ([c] + front[0]) + back[0];
    } else {
      assert f[..|f| - 1] == [[c] + front[0]] + front[1..|front| - 1];
      assert g[0] == front[0];
      assert g[1..] == front[1..|front| - 1] + [Last(front) + back[0]] + back[1..];
    }
  }

  /** The first step over `a + b` is the first step over `a`, unless `a`
      ends with the `\r` of a pair that `b` completes. */
  lemma HeadOfAppend(a: string, b: string)
    requires a != []
    requires !(a[|a| - 1] == '\r' && |b| > 0 && b[0] == '\n')
    ensures (a + b)[0] == a[0] && HeadLength(a + b) == HeadLength(a)
    ensures (a + b)[HeadLength(a)..] == a[HeadLength(a)..] + b
  {
    if |a| >= 2 {
      assert (a + b)[1] == a[1];
    }
  }

  /** Splitting a concatenation: when the boundary does not cut a `\r\n`
      pair, the last fragment of `a` and the first fragment of `b` fuse and
      every other fragment is kept. */
  lemma {:induction false} SplitAppend(a: string, b: string)
    requires !(|a| > 0 && a[|a| - 1] == '\r' && |b| > 0 && b[0] == '\n')
    ensures Split(a + b) == Glue(Split(a), Split(b))
    decreases |a|
  {
    if a == [] {
      assert a + b == b;
      assert [] + Split(b)[0] == Split(b)[0];
    } else {
      var n := HeadLength(a);
      HeadOfAppend(a, b);
      SplitAppend(a[n..], b);
      if IsBreak(a[0]) {
        GlueEmptyFirst(Split(a[n..]), Split(b));
      } else {
        GlueConsFirst(a[0], Split(a[n..]), Split(b));
      }
    }
  }

  /** Gluing onto a front whose last part is known. */
  lemma GlueKnown(lines: seq<string>, carry: string, back: seq<string>)
    requires |back| > 0
    ensures Glue(lines + [carry], back) == lines + ([carry + back[0]] + back[1..])
  {
    var front := lines + [carry];
    assert front[..|front| - 1] == lines;
  }

  /** SplitAppend, with the split of `a` already known as `lines` followed
      by its last fragment `carry`. */
  lemma SplitAppendKnown(lines: seq<string>, carry: string, a: string, b: string)
    requires lines + [carry] == Split(a)
    requires !(|a| > 0 && a[|a| - 1] == '\r' && |b| > 0 && b[0] == '\n')
    ensures Split(a + b) == lines + ([carry + Split(b)[0]] + Split(b)[1..])
  {
    SplitAppend(a, b);
    GlueKnown(lines, carry, Split(b));
  }
}
