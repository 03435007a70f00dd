/** DuckDB names of the columns of an Oracle table: names that differ only in case get a suffix. */
module DuckColumnNames {
  import opened Numerals

  function LowerChar(c: char): char {
    if 'A' <= c <= 'Z' then c - 'A' + 'a' else c
  }

  function Lower(s: string): (r: string)
    ensures |r| == |s|
  {
    seq(|s|, i requires 0 <= i < |s| => LowerChar(s[i]))
  }

  function Candidate(name: string, suffix: nat): string {
    name + "_" + Decimal(suffix)
  }

  /** Different suffixes give different names, whatever the case. */
  lemma CandidatesDiffer(name: string, m: nat, n: nat)
    requires 0 < m < n
    ensures Lower(Candidate(name, m)) != Lower(Candidate(name, n))
  {
    hide Decimal;
    if Lower(Candidate(name, m)) == Lower(Candidate(name, n)) {
      LowerConcat(name + "_", Decimal(m));
      LowerConcat(name + "_", Decimal(n));
      DecimalIsLower(m);
      DecimalIsLower(n);
      var p := |name| + 1;
      assert (Lower(name + "_") + Decimal(m))[p..] == Decimal(m);
      assert (Lower(name + "_") + Decimal(n))[p..] == Decimal(n);
      DecimalInjective(m, n);
    }
  }

  lemma LowerConcat(s: string, t: string)
    ensures Lower(s + t) == Lower(s) + Lower(t)
  {}

  lemma DecimalIsLower(n: nat)
    ensures Lower(Decimal(n)) == Decimal(n)
  {
    hide Decimal;
    DecimalDigits(n);
  }

  lemma SubsetSize(a: set<string>, b: set<string>)
    requires a <= b
    ensures |a| <= |b|
  {
    if a != {} {
      var x :| x in a;
      SubsetSize(a - {x}, b - {x});
    }
  }

  /** A name with an underscore and a number behind it. */
  ghost predicate Generated(column: string, name: string) {
    exists n: nat :: n > 0 && name == column + "_" + Decimal(n)
  }

  lemma IsGenerated(name: string, n: nat)
    requires n > 0
    ensures Generated(name, Candidate(name, n))
  {
    hide Decimal;
  }

  /** The first suffix that gives a name not to be avoided. There is one: only finitely many names are avoided. */
  method FreeName(name: string, avoid: set<string>) returns (candidate: string)
    ensures Lower(candidate) !in avoid && Generated(name, candidate)
    ensures exists n: nat :: n > 0 && candidate == Candidate(name, n)
                          && forall k :: 0 < k < n ==> Lower(Candidate(name, k)) in avoid
  {
    hide Lower, Candidate, Generated;
    var suffix := 1;
    ghost var tried: set<string> := {};
    while true
      invariant suffix > 0 && tried <= avoid && |tried| == suffix - 1
      invariant forall s <- tried :: exists k: nat :: 0 < k < suffix && s == Lower(Candidate(name, k))
      invariant forall k :: 0 < k < suffix ==> Lower(Candidate(name, k)) in avoid
      decreases |avoid| + 1 - suffix
    {
      candidate := Candidate(name, suffix);
      var lower := Lower(candidate);
      if lower !in avoid {
        IsGenerated(name, suffix);
        return;
      }
      if lower in tried {
        var k: nat :| 0 < k < suffix && lower == Lower(Candidate(name, k));
        CandidatesDiffer(name, k, suffix);
        assert false;
      }
      tried := tried + {lower};
      SubsetSize(tried, avoid);
      suffix := suffix + 1;
    }
  }

  /** An earlier column has the same name but for the case. */
  predicate Repeated(columns: seq<string>, i: nat)
    requires i < |columns|
  {
    exists j :: 0 <= j < i && Lower(columns[j]) == Lower(columns[i])
  }

  function LowerNames(columns: seq<string>): (names: set<string>)
    ensures forall i :: 0 <= i < |columns| ==> Lower(columns[i]) in names
    ensures forall s <- names :: exists i :: 0 <= i < |columns| && s == Lower(columns[i])
  {
    set i | 0 <= i < |columns| :: Lower(columns[i])
  }

  /** The name a column gets: its own, or a generated one that no column has. */
  ghost predicate Renamed(columns: seq<string>, i: nat, name: string)
    requires i < |columns|
  {
    && (name == columns[i] <==> !Repeated(columns, i))
    && (name != columns[i] ==>
          Generated(columns[i], name) && Lower(name) !in LowerNames(columns))
  }

  ghost predicate Distinct(names: seq<string>) {
    forall i, j :: 0 <= i < j < |names| ==> Lower(names[i]) != Lower(names[j])
  }

  /** The first i columns have names, and `given` holds those names in lower case. */
  ghost predicate NamedSoFar(columns: seq<string>, names: seq<string>, given: set<string>) {
    && |names| <= |columns| && Distinct(names)
    && (forall k :: 0 <= k < |names| ==> Lower(names[k]) in given && Lower(columns[k]) in given)
    && (forall s <- given :: s in LowerNames(columns) ==> exists k :: 0 <= k < |names| && s == Lower(columns[k]))
    && (forall k :: 0 <= k < |names| ==> Renamed(columns, k, names[k]))
  }

  lemma KeepName(columns: seq<string>, names: seq<string>, given: set<string>)
    requires NamedSoFar(columns, names, given) && |names| < |columns| && Lower(columns[|names|]) !in given
    ensures NamedSoFar(columns, names + [columns[|names|]], given + {Lower(columns[|names|])})
  {
    hide Lower, Candidate, LowerNames;
    var i := |names|;
    assert !Repeated(columns, i);
    assert Renamed(columns, i, columns[i]);
  }

  lemma ChangeName(columns: seq<string>, names: seq<string>, given: set<string>, name: string)
    requires NamedSoFar(columns, names, given) && |names| < |columns| && Lower(columns[|names|]) in given
    requires Lower(name) !in given && Lower(name) !in LowerNames(columns)
    requires Generated(columns[|names|], name)
    ensures NamedSoFar(columns, names + [name], given + {Lower(name)})
  {
    hide Lower, LowerNames, Generated, Renamed;
    InLowerNames(columns, |names|);
    RenamedApart(columns, |names|, name);
  }

  lemma RenamedApart(columns: seq<string>, i: nat, name: string)
    requires i < |columns| && Generated(columns[i], name) && Lower(name) !in LowerNames(columns)
    requires exists k :: 0 <= k < i && Lower(columns[i]) == Lower(columns[k])
    ensures Renamed(columns, i, name)
  {
    hide Lower, LowerNames, Generated;
    InLowerNames(columns, i);
    var k :| 0 <= k < i && Lower(columns[i]) == Lower(columns[k]);
    assert Lower(columns[k]) == Lower(columns[i]);
    assert Repeated(columns, i);
  }

  lemma InLowerNames(columns: seq<string>, i: nat)
    requires i < |columns|
    ensures Lower(columns[i]) in LowerNames(columns)
  {}

  /** One DuckDB name per column, different even when the case is ignored. A column keeps its name unless an
      earlier column has the same one, and a generated name is never that of a column. */
  method ColumnNames(columns: seq<string>) returns (names: seq<string>)
    ensures |names| == |columns| && Distinct(names)
    ensures forall i :: 0 <= i < |names| ==> Renamed(columns, i, names[i])
  {
    hide Lower, Candidate, Generated, LowerNames, NamedSoFar;
    var taken := LowerNames(columns);
    var given: set<string> := {};
    names := [];
    NothingNamed(columns);
    for i := 0 to |columns|
      invariant |names| == i && LowerNames(columns) <= taken
      invariant NamedSoFar(columns, names, given)
    {
      var lower := Lower(columns[i]);
      if lower !in given {
        KeepName(columns, names, given);
        given := given + {lower};
        names := names + [columns[i]];
      } else {
        var candidate := FreeName(columns[i], taken + given);
        ChangeName(columns, names, given, candidate);
        taken, given := taken + {Lower(candidate)}, given + {Lower(candidate)};
        names := names + [candidate];
      }
    }
    AllNamed(columns, names, given);
  }

  lemma NothingNamed(columns: seq<string>)
    ensures NamedSoFar(columns, [], {})
  {}

  lemma AllNamed(columns: seq<string>, names: seq<string>, given: set<string>)
    requires NamedSoFar(columns, names, given) && |names| == |columns|
    ensures Distinct(names) && forall i :: 0 <= i < |names| ==> Renamed(columns, i, names[i])
  {}
}
