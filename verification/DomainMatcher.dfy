/** Domain rules against domain queries, at the level of the strings a user writes:
    the trie is used through its contract, and the plain rule list is the reference. */
module DomainMatcher {
  import opened DomainNames
  import opened DomainTrie

  datatype DomainRule = DomainRule(domain: string, kind: Match)

  /** What a rule promises: case-folded, its root dot dropped, a full rule is the
      query, a suffix rule is the query or ends it behind a dot. */
  ghost predicate Promises(lower: string -> string, rule: DomainRule, query: string)
  {
    var r, q := lower(TrimRootDot(rule.domain)), lower(query);
    q == r || (rule.kind == Suffix && EndsWith(q, "." + r))
  }

  /** `query` is the domain without its root dot. */
  predicate IsUndotted(domain: string, query: string)
  {
    domain == query + "." || (domain == query && !EndsWith(query, "."))
  }

  lemma Undotted(domain: string, query: string)
    requires query == TrimRootDot(domain)
    ensures IsUndotted(domain, query)
    ensures forall q :: IsUndotted(domain, q) ==> q == query
  {
    forall q | IsUndotted(domain, q)
      ensures q == query
    {
      RootDotDropped(q);
    }
    assert EndsWith(domain, ".") ==> domain == domain[..|domain| - 1] + ".";
  }

  /** A rule promises the query that is its own domain, root dot apart, and a suffix rule
      any query that puts a front and a dot before it. */
  lemma PromisesExactly(lower: string -> string, rule: DomainRule, name: string, query: string)
    requires IsUndotted(rule.domain, name)
    ensures Promises(lower, rule, query)
       <==> || lower(query) == lower(name)
            || (rule.kind == Suffix && exists front: string :: lower(query) == front + "." + lower(name))
  {
    Undotted(rule.domain, TrimRootDot(rule.domain));
    var r, q := lower(name), lower(query);
    EndsWithExactly(q, "." + r);
    if front: string :| q == front + ("." + r) {
      assert q == front + "." + r;
    }
    if front: string :| q == front + "." + r {
      assert q == front + ("." + r);
    }
  }

  function Labels(lower: string -> string, domain: string): (labels: seq<string>)
    ensures labels != []
  {
    Split(lower(domain))
  }

  function ToRule(lower: string -> string, rule: DomainRule): (r: Rule)
  {
    Rule(Reverse(Labels(lower, TrimRootDot(rule.domain))), rule.kind)
  }

  function ToRules(lower: string -> string, rules: seq<DomainRule>): (rs: seq<Rule>)
    ensures |rs| == |rules| && forall i :: 0 <= i < |rules| ==> rs[i] == ToRule(lower, rules[i])
  {
    seq(|rules|, i requires 0 <= i < |rules| => ToRule(lower, rules[i]))
  }

  lemma ReverseTwice(p: seq<string>)
    ensures Reverse(Reverse(p)) == p
  {
  }

  lemma ReversedPrefix(a: seq<string>, b: seq<string>)
    ensures Reverse(a) <= Reverse(b) <==> IsLabelSuffix(a, b)
  {
    if Reverse(a) <= Reverse(b) {
      var d := |b| - |a|;
      forall i | 0 <= i < |a|
        ensures b[d..][i] == a[i]
      {
        assert Reverse(a)[|a| - 1 - i] == Reverse(b)[|a| - 1 - i];
      }
      assert b[d..] == a;
    }
    if IsLabelSuffix(a, b) {
      var d := |b| - |a|;
      forall i | 0 <= i < |a|
        ensures Reverse(a)[i] == Reverse(b)[i]
      {
        assert b[d..][|a| - 1 - i] == a[|a| - 1 - i];
      }
    }
  }

  /** The label-wise rule of the trie is what the rule promises for the strings. */
  lemma CoversIsPromises(lower: string -> string, rule: DomainRule, query: string)
    requires rule.kind != Unmarked
    ensures Covers(ToRule(lower, rule), Reverse(Labels(lower, query))) <==> Promises(lower, rule, query)
  {
    var r, q := lower(TrimRootDot(rule.domain)), lower(query);
    if rule.kind == Suffix {
      ReversedPrefix(Split(r), Split(q));
      LabelSuffixIsDottedSuffix(r, q);
    } else {
      ReverseTwice(Split(r));
      ReverseTwice(Split(q));
      SplitInjective(r, q);
    }
  }

  ghost predicate SomePromises(lower: string -> string, rules: seq<DomainRule>, query: string)
  {
    exists i :: 0 <= i < |rules| && Promises(lower, rules[i], query)
  }

  /** After any insertions, in any order and with repetitions, looking a query up
      in the trie answers whether some rule of the list promises it. */
  lemma TrieAnswersForList(lower: string -> string, rules: seq<DomainRule>, query: string)
    requires forall i :: 0 <= i < |rules| ==> rules[i].kind != Unmarked
    ensures Found(MarksOf(ToRules(lower, rules)), Reverse(Labels(lower, query)))
       <==> SomePromises(lower, rules, query)
  {
    var rs, q := ToRules(lower, rules), Reverse(Labels(lower, query));
    AgreesWithRules(rs, q);
    if exists i :: 0 <= i < |rs| && Covers(rs[i], q) {
      var i :| 0 <= i < |rs| && Covers(rs[i], q);
      CoversIsPromises(lower, rules[i], query);
    }
    if SomePromises(lower, rules, query) {
      var i :| 0 <= i < |rules| && Promises(lower, rules[i], query);
      CoversIsPromises(lower, rules[i], query);
      assert Covers(rs[i], q);
    }
  }

  class Matcher {
    const lower: string -> string
    const trie: Trie
    const regexes: seq<string -> bool>
    ghost var rules: seq<DomainRule>

    ghost predicate Valid()
      reads this, trie, trie.repr
    {
      && trie.Valid() && trie.marks == MarksOf(ToRules(lower, rules))
      && forall i :: 0 <= i < |rules| ==> rules[i].kind != Unmarked
    }

    constructor (lower: string -> string, regexes: seq<string -> bool>)
      ensures Valid() && rules == [] && this.regexes == regexes && this.lower == lower
      ensures fresh(trie) && fresh(trie.repr)
    {
      this.lower, this.regexes, rules := lower, regexes, [];
      trie := new Trie();
    }

    method AddDomainRule(domain: string, kind: Match)
      requires Valid() && kind != Unmarked
      modifies this`rules, trie, trie.repr
      ensures Valid() && rules == old(rules) + [DomainRule(domain, kind)]
      ensures fresh(trie.repr - old(trie.repr))
    {
      trie.Add(Labels(lower, TrimRootDot(domain)), kind);
      ghost var more := rules + [DomainRule(domain, kind)];
      assert ToRules(lower, more)[..|rules|] == ToRules(lower, rules);
      rules := more;
    }

    /** MatchDomain: the query's own root dot does not count either. */
    method MatchDomain(domain: string) returns (found: bool)
      requires Valid()
      ensures forall query :: IsUndotted(domain, query) ==>
                (found <==> SomePromises(lower, rules, query) || exists i :: 0 <= i < |regexes| && regexes[i](query))
      ensures exists query :: IsUndotted(domain, query)
    {
      var query := TrimRootDot(domain);
      Undotted(domain, query);
      found := trie.Matches(Labels(lower, query));
      TrieAnswersForList(lower, rules, query);
      var i := 0;
      while i < |regexes| && !found
        invariant 0 <= i <= |regexes|
        invariant found <==> SomePromises(lower, rules, query) || exists k :: 0 <= k < i && regexes[k](query)
      {
        found := regexes[i](query);
        i := i + 1;
      }
    }
  }
}
