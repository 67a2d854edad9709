/** The output lines of the dependency generators (rpmfcHelper and parseDep in daemon/rpmfc.c). */
module DepLines {
  import opened FileSystem
  import opened DepCodec
  import opened DepSets
  import opened Flags

  const RPMSENSE_LESS: bv32 := 0x2
  const RPMSENSE_GREATER: bv32 := 0x4
  const RPMSENSE_EQUAL: bv32 := 0x8
  const RPMSENSE_FIND_REQUIRES: bv32 := 0x4000
  const RPMSENSE_FIND_PROVIDES: bv32 := 0x8000

  /**
   One run of a dependency generator on a file: the words of its output lines, the namespace of the
   generator, and what its exclude pattern lets through.
  */
  datatype HelperRun = HelperRun(tag: Tag, lines: seq<seq<string>>, namespace: Option<string>, keep: Dep -> bool)

  datatype Report = Report(tag: Tag, dep: Dep)

  // ----- one output line

  /** The flag of one character of an operator, 0 if it is none. */
  function Operator(c: char): bv32 {
    if c == '=' then RPMSENSE_EQUAL else if c == '<' then RPMSENSE_LESS else if c == '>' then RPMSENSE_GREATER else 0
  }

  function Operators(s: string): Option<bv32> {
    if s == "" then Some(0)
    else
      var n := |s| - 1;
      match Operators(s[..n])
      case Some(f) => if Operator(s[n]) == 0 then None else Some(Plus(f, Operator(s[n])))
      case None => None
  }

  function Context(tag: Tag): bv32 {
    if tag == Provide then RPMSENSE_FIND_PROVIDES else RPMSENSE_FIND_REQUIRES
  }

  function InNamespace(ns: Option<string>, name: string): string {
    match ns
    case Some(n) => n + "(" + name + ")"
    case None => name
  }

  /** The dependency that a line stands for, or None when it is malformed. */
  function ParseLine(words: seq<string>, run: HelperRun): Option<Dep> {
    if |words| == 1 then Some(Dep(InNamespace(run.namespace, words[0]), "", Context(run.tag) as nat))
    else if |words| == 3 then
      match Operators(words[1])
      case Some(f) => Some(Dep(InNamespace(run.namespace, words[0]), words[2], Plus(Context(run.tag), f) as nat))
      case None => None
    else None
  }

  /** What the first n lines report. */
  function Reports(run: HelperRun, n: nat): seq<Report>
    requires n <= |run.lines|
  {
    if n == 0 then []
    else
      var d := ParseLine(run.lines[n - 1], run);
      Reports(run, n - 1) + if d.Some? && run.keep(d.value) then [Report(run.tag, d.value)] else []
  }

  function RunReports(runs: seq<HelperRun>, n: nat): seq<Report>
    requires n <= |runs|
  {
    if n == 0 then [] else RunReports(runs, n - 1) + Reports(runs[n - 1], |runs[n - 1].lines|)
  }

  /** What the generators report for each file. */
  function FileReports(files: seq<seq<HelperRun>>): (r: seq<seq<Report>>)
    ensures |r| == |files|
    ensures forall i | 0 <= i < |r| :: r[i] == RunReports(files[i], |files[i]|)
  {
    seq(|files|, i requires 0 <= i < |files| => RunReports(files[i], |files[i]|))
  }

  // ----- what a line means

  /** One word, or three words whose middle one is made of the characters of the operators. */
  predicate WellFormed(words: seq<string>) {
    |words| == 1 || (|words| == 3 && forall c | c in words[1] :: c in {'<', '>', '='})
  }

  /** 2 for less, 4 for greater, 8 for equal, as far as the operator has them. */
  function Sense(op: string): nat {
    (if '<' in op then 2 else 0) + (if '>' in op then 4 else 0) + (if '=' in op then 8 else 0)
  }

  /**
   The dependency that a well-formed line stands for: the first word in its namespace, the third word as
   version and the flags of the operator, on top of 0x8000 for provides and 0x4000 for all other kinds.
  */
  ghost predicate LineMeans(words: seq<string>, ns: Option<string>, tag: Tag, d: Dep) {
    && WellFormed(words)
    && d.name == (if ns.Some? then ns.value + "(" + words[0] + ")" else words[0])
    && d.evr == (if |words| == 3 then words[2] else "")
    && d.flags == (if tag == Provide then 0x8000 else 0x4000) + if |words| == 3 then Sense(words[1]) else 0
  }

  /** The flags of an operator that is well formed, and none of any other. */
  lemma {:induction false} OperatorsAre(s: string)
    ensures Operators(s).Some? <==> forall c | c in s :: c in {'<', '>', '='}
    ensures Operators(s).Some? ==> Operators(s).value == Bits('<' in s, '>' in s, '=' in s)
  {
    hide Bits, Plus, Operator;
    if s == "" {
      BitsNone();
      assert '<' !in s && '>' !in s && '=' !in s;
      NoOperator();
    } else {
      var t, c := s[..|s| - 1], s[|s| - 1];
      OperatorsAre(t);
      OperatorsNext(s, |s| - 1);
      assert s[..|s|] == s && c in s;
      assert s == t + [c];
      forall x ensures x in s <==> x == c || x in t {}
      OperatorIs(c);
      BitsPlus('<' in t, '>' in t, '=' in t);
    }
  }

  lemma OperatorIs(c: char)
    ensures Operator(c) == 0 <==> c !in {'<', '>', '='}
    ensures (c == '<' ==> Operator(c) == 2) && (c == '>' ==> Operator(c) == 4) && (c == '=' ==> Operator(c) == 8)
  {
  }

  lemma NoOperator()
    ensures Operators("") == Some(0)
  {
  }

  lemma BitsNone()
    ensures Bits(false, false, false) == 0
  {
  }

  function Bits(less: bool, greater: bool, equal: bool): bv32 {
    if less then
      if greater then if equal then 14 else 6
      else if equal then 10 else 2
    else if greater then if equal then 12 else 4
    else if equal then 8 else 0
  }

  lemma BitsPlus(a: bool, b: bool, c: bool)
    ensures Plus(Bits(a, b, c), 2) == Bits(true, b, c)
    ensures Plus(Bits(a, b, c), 4) == Bits(a, true, c)
    ensures Plus(Bits(a, b, c), 8) == Bits(a, b, true)
  {
  }

  lemma BitsSum(a: bool, b: bool, c: bool)
    ensures var n := (if a then 2 else 0) + (if b then 4 else 0) + (if c then 8 else 0);
            && Plus(0x8000, Bits(a, b, c)) as nat == 0x8000 + n
            && Plus(0x4000, Bits(a, b, c)) as nat == 0x4000 + n
  {
  }

  /** A line is understood if and only if it is well formed, and then as the dependency that it means. */
  lemma ParseLineIs(words: seq<string>, run: HelperRun)
    ensures ParseLine(words, run).Some? <==> WellFormed(words)
    ensures forall d :: ParseLine(words, run) == Some(d) <==> LineMeans(words, run.namespace, run.tag, d)
  {
    hide Operators, Plus, Bits, Context;
    if |words| == 3 {
      OperatorsAre(words[1]);
      BitsSum('<' in words[1], '>' in words[1], '=' in words[1]);
    }
    ContextIs(run.tag);
  }

  lemma ContextIs(tag: Tag)
    ensures Context(tag) == if tag == Provide then 0x8000 else 0x4000
    ensures Context(tag) as nat == if tag == Provide then 0x8000 else 0x4000
  {
  }

  /** parseDep, with the dependency that rpmfcHelper makes of its results. */
  method ParseDep(depav: seq<string>, ns: Option<string>, tag: Tag) returns (dep: Option<Dep>)
    ensures dep.Some? <==> WellFormed(depav)
    ensures dep.Some? ==> LineMeans(depav, ns, tag, dep.value)
  {
    hide Operators, Plus, Bits, Context, Operator;
    ContextIs(tag);
    var flags := Context(tag);
    if |depav| == 1 {
      return Some(Dep(InNamespace(ns, depav[0]), "", flags as nat));
    } else if |depav| == 3 {
      var op, i := depav[1], 0;
      PlusNone(flags);
      NoOperator();
      assert op[..0] == "";
      ghost var bits: bv32 := 0;
      while i < |op|
        invariant 0 <= i <= |op| && Operators(op[..i]) == Some(bits) && flags == Plus(Context(tag), bits)
      {
        OperatorsNext(op, i);
        if Operator(op[i]) == 0 {
          OperatorIs(op[i]);
          assert op[i] in op && op[i] in depav[1];
          return None;
        }
        PlusPlus(Context(tag), bits, Operator(op[i]));
        flags := Plus(flags, Operator(op[i]));
        bits := Plus(bits, Operator(op[i]));
        i := i + 1;
      }
      assert op[..i] == op;
      OperatorsAre(op);
      BitsSum('<' in op, '>' in op, '=' in op);
      return Some(Dep(InNamespace(ns, depav[0]), depav[2], flags as nat));
    }
    return None;
  }

  lemma OperatorsNext(op: string, i: nat)
    requires i < |op|
    ensures Operators(op[..i + 1]) ==
            match Operators(op[..i])
            case Some(f) => if Operator(op[i]) == 0 then None else Some(Plus(f, Operator(op[i])))
            case None => None
  {
    hide Operator, Plus;
    assert op[..i + 1][..i] == op[..i] && op[..i + 1][i] == op[i];
  }

  lemma PlusPlus(a: bv32, b: bv32, c: bv32)
    ensures Plus(Plus(a, b), c) == Plus(a, Plus(b, c))
  {
  }

  /** How many of the lines are malformed. */
  function Malformed(lines: seq<seq<string>>): nat {
    if lines == [] then 0
    else Malformed(lines[..|lines| - 1]) + if WellFormed(lines[|lines| - 1]) then 0 else 1
  }

  /**
   The reports of a run, in the order of its lines: line ls[k] is the k-th that is well formed and not
   filtered, and report k is what it means.
  */
  lemma {:induction false} ReportsAre(run: HelperRun, n: nat) returns (ls: seq<nat>)
    requires n <= |run.lines|
    ensures |ls| == |Reports(run, n)| && (forall j, k | 0 <= j < k < |ls| :: ls[j] < ls[k])
    ensures forall k | 0 <= k < |ls| ::
              && ls[k] < n && Reports(run, n)[k].tag == run.tag && run.keep(Reports(run, n)[k].dep)
              && LineMeans(run.lines[ls[k]], run.namespace, run.tag, Reports(run, n)[k].dep)
    ensures forall i, d | 0 <= i < n && LineMeans(run.lines[i], run.namespace, run.tag, d) && run.keep(d) :: i in ls
    decreases n
  {
    hide ParseLine, LineMeans;
    if n == 0 {
      ls := [];
    } else {
      ls := ReportsAre(run, n - 1);
      ParseLineIs(run.lines[n - 1], run);
      var d := ParseLine(run.lines[n - 1], run);
      if d.Some? && run.keep(d.value) {
        ls := ls + [n - 1];
      }
    }
  }

  /** Some run of a generator on a file prints, and its filter lets through, a line that means d. */
  ghost predicate Printed(runs: seq<HelperRun>, tag: Tag, d: Dep) {
    exists i, j :: 0 <= i < |runs| && runs[i].tag == tag && runs[i].keep(d) && 0 <= j < |runs[i].lines|
                   && LineMeans(runs[i].lines[j], runs[i].namespace, tag, d)
  }

  /** A dependency is reported for a file if and only if some line of a generator of its kind means it. */
  lemma {:induction false} RunReportsAre(runs: seq<HelperRun>, n: nat, tag: Tag, d: Dep)
    requires n <= |runs|
    ensures Report(tag, d) in RunReports(runs, n) <==> Printed(runs[..n], tag, d)
    decreases n
  {
    hide LineMeans, Reports;
    if n > 0 {
      RunReportsAre(runs, n - 1, tag, d);
      var run := runs[n - 1];
      assert runs[..n] == runs[..n - 1] + [run];
      OneRun(run, tag, d);
      PrintedCat(runs[..n - 1], run, tag, d);
    }
  }

  lemma OneRun(run: HelperRun, tag: Tag, d: Dep)
    ensures Report(tag, d) in Reports(run, |run.lines|) <==> Printed([run], tag, d)
  {
    hide LineMeans, Reports;
    var rs := Reports(run, |run.lines|);
    var ls := ReportsAre(run, |run.lines|);
    if Report(tag, d) in rs {
      var k :| 0 <= k < |rs| && rs[k] == Report(tag, d);
      assert [run][0] == run && LineMeans([run][0].lines[ls[k]], run.namespace, tag, d);
    }
    if Printed([run], tag, d) {
      var i, j :| 0 <= i < 1 && [run][i].tag == tag && [run][i].keep(d) && 0 <= j < |[run][i].lines|
                  && LineMeans([run][i].lines[j], [run][i].namespace, tag, d);
      var k :| 0 <= k < |ls| && ls[k] == j;
      MeansOne(run.lines[j], run.namespace, tag, d, rs[k].dep);
      assert rs[k] == Report(tag, d);
    }
  }

  lemma MeansOne(words: seq<string>, ns: Option<string>, tag: Tag, d: Dep, e: Dep)
    requires LineMeans(words, ns, tag, d) && LineMeans(words, ns, tag, e)
    ensures d == e
  {
  }

  lemma PrintedCat(runs: seq<HelperRun>, run: HelperRun, tag: Tag, d: Dep)
    ensures Printed(runs + [run], tag, d) <==> Printed(runs, tag, d) || Printed([run], tag, d)
  {
    hide LineMeans;
    if Printed(runs, tag, d) {
      var i, j :| 0 <= i < |runs| && runs[i].tag == tag && runs[i].keep(d) && 0 <= j < |runs[i].lines|
                  && LineMeans(runs[i].lines[j], runs[i].namespace, tag, d);
      assert (runs + [run])[i] == runs[i];
    }
    if Printed([run], tag, d) {
      var i, j :| 0 <= i < 1 && [run][i].tag == tag && [run][i].keep(d) && 0 <= j < |[run][i].lines|
                  && LineMeans([run][i].lines[j], [run][i].namespace, tag, d);
      assert (runs + [run])[|runs|] == run;
    }
    if Printed(runs + [run], tag, d) && !Printed([run], tag, d) {
      var all := runs + [run];
      var i, j :| 0 <= i < |all| && all[i].tag == tag && all[i].keep(d) && 0 <= j < |all[i].lines|
                  && LineMeans(all[i].lines[j], all[i].namespace, tag, d);
      if i == |runs| {
        assert [run][0] == all[i];
      }
    }
  }
}
