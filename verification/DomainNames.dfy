/** Domain names as strings and as labels: strings.Split on the dot, the root dot,
    and what a label-wise suffix means for the strings themselves. */
module DomainNames {

  /** strings.Split(s, "."): at least one label, and one more per dot. */
  function Split(s: string): (labels: seq<string>)
    ensures |labels| >= 1
  {
    if s == "" then [""]
    else
      var rest := Split(s[1..]);
      if s[0] == '.' then [""] + rest else [[s[0]] + rest[0]] + rest[1..]
  }

  function Join(labels: seq<string>): (s: string)
    requires |labels| >= 1
  {
    if |labels| == 1 then labels[0] else labels[0] + "." + Join(labels[1..])
  }

  /** trimDomainRootDot: one trailing dot is dropped. */
  function TrimRootDot(s: string): (t: string)
  {
    if |s| > 0 && s[|s| - 1] == '.' then s[..|s| - 1] else s
  }

  /** One root dot is dropped, and nothing else. */
  lemma RootDotDropped(s: string)
    ensures TrimRootDot(s + ".") == s
    ensures !EndsWith(s, ".") ==> TrimRootDot(s) == s
  {
  }

  lemma EndsWithExactly(s: string, t: string)
    ensures EndsWith(s, t) <==> exists front: string :: s == front + t
  {
    if EndsWith(s, t) {
      assert s == s[..|s| - |t|] + t;
    }
  }

  lemma {:induction false} JoinSplit(s: string)
    ensures Join(Split(s)) == s
  {
    if s != "" {
      JoinSplit(s[1..]);
      var rest := Split(s[1..]);
      if s[0] == '.' {
        assert Split(s)[1..] == rest;
        assert "" + "." + s[1..] == s;
      } else if |rest| == 1 {
        assert Split(s) == [[s[0]] + rest[0]];
      } else {
        assert Split(s)[1..] == rest[1..];
        assert [s[0]] + rest[0] + "." + Join(rest[1..]) == [s[0]] + (rest[0] + "." + Join(rest[1..]));
      }
    }
  }

  lemma {:induction false} SplitInjective(s: string, t: string)
    ensures Split(s) == Split(t) <==> s == t
  {
    JoinSplit(s);
    JoinSplit(t);
  }

  /** A dot separates labels. */
  lemma {:induction false} SplitAtDot(a: string, b: string)
    ensures Split(a + "." + b) == Split(a) + Split(b)
  {
    if a == "" {
      assert (a + "." + b)[1..] == b && (a + "." + b)[0] == '.';
    } else {
      SplitAtDot(a[1..], b);
      assert (a + "." + b)[1..] == a[1..] + "." + b && (a + "." + b)[0] == a[0];
      SplitConsAppends(a[0], Split(a[1..]), Split(b));
    }
  }

  /** One character more at the front only touches the first label. */
  lemma SplitConsAppends(c: char, l: seq<string>, m: seq<string>)
    requires |l| >= 1
    ensures [""] + (l + m) == [""] + l + m
    ensures [[c] + (l + m)[0]] + (l + m)[1..] == [[c] + l[0]] + l[1..] + m
  {
    assert (l + m)[0] == l[0] && (l + m)[1..] == l[1..] + m;
  }

  lemma {:induction false} JoinAppend(a: seq<string>, b: seq<string>)
    requires |a| >= 1 && |b| >= 1
    ensures Join(a + b) == Join(a) + "." + Join(b)
  {
    if |a| == 1 {
      assert (a + b)[1..] == b;
    } else {
      JoinAppend(a[1..], b);
      assert (a + b)[1..] == a[1..] + b;
      assert a[0] + "." + (Join(a[1..]) + "." + Join(b)) == a[0] + "." + Join(a[1..]) + "." + Join(b);
    }
  }

  predicate EndsWith(s: string, t: string)
  {
    |t| <= |s| && s[|s| - |t|..] == t
  }

  predicate IsLabelSuffix(labels: seq<string>, of: seq<string>)
  {
    |labels| <= |of| && of[|of| - |labels|..] == labels
  }

  /** The labels of `r` end those of `q` exactly when `q` is `r` or ends with a dot and `r`. */
  lemma {:induction false} LabelSuffixIsDottedSuffix(r: string, q: string)
    ensures IsLabelSuffix(Split(r), Split(q)) <==> q == r || EndsWith(q, "." + r)
  {
    if IsLabelSuffix(Split(r), Split(q)) {
      SuffixIsDotted(r, q);
    } else if EndsWith(q, "." + r) {
      var front := q[..|q| - |r| - 1];
      assert q == front + "." + r;
      SplitAtDot(front, r);
    }
  }

  lemma {:induction false} SuffixIsDotted(r: string, q: string)
    requires IsLabelSuffix(Split(r), Split(q))
    ensures q == r || EndsWith(q, "." + r)
  {
    JoinSplit(q);
    JoinSplit(r);
    JoinBehind(Split(q), Split(r));
  }

  lemma {:induction false} JoinBehind(labels: seq<string>, last: seq<string>)
    requires IsLabelSuffix(last, labels) && |last| >= 1
    ensures Join(labels) == Join(last) || EndsWith(Join(labels), "." + Join(last))
  {
    var front := labels[..|labels| - |last|];
    assert labels == front + last;
    if front == [] {
      assert labels == last;
    } else {
      JoinAppend(front, last);
      DotBefore(Join(front), Join(last));
    }
  }

  lemma DotBefore(front: string, r: string)
    ensures EndsWith(front + "." + r, "." + r)
  {
    assert front + "." + r == front + ("." + r);
  }
}
