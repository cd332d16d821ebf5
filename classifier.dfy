/** The software classifier of `read_in_data` (run.py): an ordered table of
    rules, each a keyword condition and a software label, tried top to bottom
    on the raw log line; the first rule whose condition holds gives the
    label, and a line no rule matches is labelled "others".

    A condition is a tree of case-sensitive substring tests joined by `and`
    and `or`. Python's `and` binds tighter than `or`, so `"g16" in line or
    "g09" in line or "g03" in line and ".gjf" in line` is
    `Or(Has("g16"), Or(Has("g09"), And(Has("g03"), Has(".gjf"))))`. */
module Classifier {
  import opened Text

  /** A keyword condition on a line. */
  datatype Cond = Has(fragment: string) | And(left: Cond, right: Cond) | Or(left: Cond, right: Cond)

  /** Whether `line` satisfies `c`. */
  predicate Holds(c: Cond, line: string) {
    match c
    case Has(f) => Contains(line, f)
    case And(a, b) => Holds(a, line) && Holds(b, line)
    case Or(a, b) => Holds(a, line) || Holds(b, line)
  }

  datatype Rule = Rule(cond: Cond, software: string)

  predicate Matches(rule: Rule, line: string) {
    Holds(rule.cond, line)
  }

  const Others: string := "others"

  /** The chain of run.py, in its order. */
  const Rules: seq<Rule> := [
    Rule(Or(Has("g16"), Or(Has("g09"), And(Has("g03"), Has(".gjf")))), "gaussian"),
    Rule(And(Has("vasp"), Has("mpirun")), "vasp"),
    Rule(Has("qchem"), "qchem"),
    Rule(Has("cp2k"), "cp2k"),
    Rule(Or(Has("lmp "), Or(Has("lmp_"), Or(Has("lmp-"), Or(Has("lammps"), Has("LAMMPS"))))), "lammps"),
    Rule(Has("pmemd"), "amber"),
    Rule(Has("gmx "), "gromacs"),
    Rule(Or(Has("namd2 "), Or(Has("namd3 "), Has("charmrun"))), "namd"),
    Rule(Has("xtb "), "xtb"),
    Rule(Or(Has("ORCA"), And(Has("orca"), Has("openmpi"))), "orca"),
    Rule(Has("nwchem "), "nwchem"),
    Rule(And(Has("rest"), Has("rust")), "rest"),
    Rule(Has("xcfour"), "cfour"),
    Rule(Or(Has("molcas"), Or(Has("Molcas"), Has("pymolcas "))), "molcas"),
    Rule(Has("molpro"), "molpro"),
    Rule(Has("psi4"), "psi4"),
    Rule(Or(Has("PYSCF"), And(Has("pyscf"), Has("python"))), "pyscf"),
    Rule(Has("aims"), "aims"),
    Rule(Has("jdftx"), "jdftx"),
    Rule(Or(Has("pw.x"), Or(Has("dos.x"), Or(Has("bands.x"), Has("pp.x")))), "quantum espresso")
  ]

  /** The label of the first rule of `rules` that matches, or "others". */
  function FirstMatch(rules: seq<Rule>, line: string): string {
    if rules == [] then Others
    else if Matches(rules[0], line) then rules[0].software
    else FirstMatch(rules[1..], line)
  }

  /** Exactly one outcome: either no rule matches and the label is
      "others", or rule `i` matches, none before it does, and the label is
      its label. */
  lemma {:induction false} FirstMatchSpec(rules: seq<Rule>, line: string)
    ensures var sw := FirstMatch(rules, line);
      || (sw == Others && forall i :: 0 <= i < |rules| ==> !Matches(rules[i], line))
      || (exists i :: 0 <= i < |rules| && Matches(rules[i], line) && sw == rules[i].software
                   && forall j :: 0 <= j < i ==> !Matches(rules[j], line))
  {
    if rules != [] && !Matches(rules[0], line) {
      FirstMatchSpec(rules[1..], line);
      assert forall i :: 1 <= i < |rules| ==> rules[i] == rules[1..][i - 1];
    }
  }

  /** The software label of a log line. */
  function Classify(line: string): string {
    FirstMatch(Rules, line)
  }

  /** The classifier gives exactly one label of the table, or "others". */
  lemma ClassifyLabel(line: string)
    ensures Classify(line) == Others || exists i :: 0 <= i < |Rules| && Classify(line) == Rules[i].software
  {
    FirstMatchSpec(Rules, line);
  }

  /** The labels of the table are pairwise different and none is "others". */
  lemma LabelsDistinct()
    ensures forall i, j :: 0 <= i < j < |Rules| ==> Rules[i].software != Rules[j].software
    ensures forall i :: 0 <= i < |Rules| ==> Rules[i].software != Others
  {
  }

  /** A line is labelled with rule `k`'s software exactly when rule `k`
      matches it and no rule before it does. */
  lemma ClassifyIs(line: string, k: nat)
    requires k < |Rules|
    ensures Classify(line) == Rules[k].software
        <==> Matches(Rules[k], line) && forall j :: 0 <= j < k ==> !Matches(Rules[j], line)
  {
    FirstMatchSpec(Rules, line);
    LabelsDistinct();
  }

  /** A line is labelled "others" exactly when no rule matches it. */
  lemma ClassifyOthers(line: string)
    ensures Classify(line) == Others <==> forall i :: 0 <= i < |Rules| ==> !Matches(Rules[i], line)
  {
    FirstMatchSpec(Rules, line);
    LabelsDistinct();
  }

  /** The Gaussian rule: "g16" or "g09" anywhere, or "g03" together with a
      ".gjf" input; `and` binds tighter than `or`, so "g03" alone is not enough. */
  lemma GaussianRule(line: string)
    ensures Classify(line) == "gaussian"
        <==> Contains(line, "g16") || Contains(line, "g09") || (Contains(line, "g03") && Contains(line, ".gjf"))
  {
    ClassifyIs(line, 0);
    var c := Or(Has("g16"), Or(Has("g09"), And(Has("g03"), Has(".gjf"))));
    assert Rules[0] == Rule(c, "gaussian");
    assert Holds(c.right.right, line) <==> Contains(line, "g03") && Contains(line, ".gjf");
    assert Holds(c.right, line) <==> Contains(line, "g09") || Holds(c.right.right, line);
    assert Holds(c, line) <==> Contains(line, "g16") || Holds(c.right, line);
  }

  /** The ORCA rule, reached only when no earlier rule matches: upper-case
      "ORCA", or lower-case "orca" together with "openmpi". */
  lemma OrcaRule(line: string)
    requires forall j :: 0 <= j < 9 ==> !Matches(Rules[j], line)
    ensures Classify(line) == "orca"
        <==> Contains(line, "ORCA") || (Contains(line, "orca") && Contains(line, "openmpi"))
  {
    ClassifyIs(line, 9);
    var c := Or(Has("ORCA"), And(Has("orca"), Has("openmpi")));
    assert Rules[9] == Rule(c, "orca");
    assert Holds(c.right, line) <==> Contains(line, "orca") && Contains(line, "openmpi");
    assert Holds(c, line) <==> Contains(line, "ORCA") || Holds(c.right, line);
  }
}
