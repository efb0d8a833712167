/** The labels of virtual nodes: "node-<node>-<i>" with decimal numbers. */
module Labels {
  import opened Ring

  function Digits(n: nat): string {
    var last := [('0' as int + n % 10) as char];
    if n < 10 then last else Digits(n / 10) + last
  }

  function Decimal(n: int): string {
    if n < 0 then "-" + Digits(-n) else Digits(n)
  }

  function Label(node: int, i: nat): string {
    "node-" + Decimal(node) + "-" + Digits(i)
  }

  lemma {:induction false} DigitsAreDigits(n: nat)
    ensures Digits(n) != [] && forall c :: c in Digits(n) ==> '0' <= c <= '9'
  {
    if n >= 10 {
      DigitsAreDigits(n / 10);
    }
  }

  lemma {:induction false} DigitsInjective(n: nat, m: nat)
    requires Digits(n) == Digits(m)
    ensures n == m
  {
    DigitsAreDigits(n / 10);
    DigitsAreDigits(m / 10);
    var d := Digits(n);
    assert d[|d| - 1] == ('0' as int + n % 10) as char == ('0' as int + m % 10) as char;
    if n >= 10 && m >= 10 {
      assert Digits(n / 10) == d[..|d| - 1] == Digits(m / 10);
      DigitsInjective(n / 10, m / 10);
    }
  }

  lemma DecimalInjective(n: int, m: int)
    requires Decimal(n) == Decimal(m)
    ensures n == m
  {
    var a, b := if n < 0 then -n else n, if m < 0 then -m else m;
    DigitsAreDigits(a);
    DigitsAreDigits(b);
    assert Digits(a)[0] in Digits(a) && Digits(b)[0] in Digits(b);
    assert (n < 0) == (Decimal(n)[0] == '-') == (Decimal(m)[0] == '-') == (m < 0);
    if n < 0 {
      assert Digits(a) == Decimal(n)[1..] == Digits(b);
    }
    DigitsInjective(a, b);
  }

  lemma NoDashInTail(s: string, i: nat, k: nat)
    requires |s| < k < |s| + 1 + |Digits(i)|
    ensures (s + "-" + Digits(i))[k] != '-'
  {
    DigitsAreDigits(i);
    assert Digits(i)[k - |s| - 1] in Digits(i);
  }

  /** The last dash of a label tells where its number starts. */
  lemma SplitAtLastDash(s: string, t: string, i: nat, j: nat)
    requires s + "-" + Digits(i) == t + "-" + Digits(j)
    ensures |t| <= |s|
  {
    assert (t + "-" + Digits(j))[|t|] == '-';
    if |s| < |t| {
      NoDashInTail(s, i, |t|);
    }
  }

  /** The number that a string of decimal digits stands for. */
  function Value(s: string): int {
    if s == [] then 0 else 10 * Value(s[..|s| - 1]) + (s[|s| - 1] as int - '0' as int)
  }

  /** Numbers are written in decimal notation, most significant digit first, without leading zeros. */
  lemma {:induction false} DigitsStandFor(n: nat)
    ensures Value(Digits(n)) == n && Digits(n) != [] && (n > 0 ==> Digits(n)[0] != '0')
  {
    var d := Digits(n);
    if n < 10 {
      assert d[..0] == [] && Value([]) == 0;
      assert Value(d) == 10 * Value(d[..0]) + n;
    } else {
      DigitsStandFor(n / 10);
      assert d[..|d| - 1] == Digits(n / 10);
    }
  }

  /** What `fmt.Sprintf("node-%d-%d", ..)` prints, for example. */
  lemma SomeLabels()
    ensures Label(1, 0) == "node-1-0" && Label(2, 159) == "node-2-159" && Label(-30, 7) == "node--30-7"
  {
    assert Digits(159) == Digits(15) + "9" && Digits(15) == Digits(1) + "5";
    assert Digits(30) == Digits(3) + "0";
  }

  /** Different virtual nodes have different labels, so only the hash itself can collide. */
  lemma LabelInjective(n: int, i: nat, m: int, j: nat)
    requires Label(n, i) == Label(m, j)
    ensures n == m && i == j
  {
    var s, t := "node-" + Decimal(n), "node-" + Decimal(m);
    SplitAtLastDash(s, t, i, j);
    SplitAtLastDash(t, s, j, i);
    var all := Label(n, i);
    assert Digits(i) == all[|s| + 1..] == all[|t| + 1..] == Digits(j);
    assert s == all[..|s|] == t;
    assert Decimal(n) == s[5..] == Decimal(m);
    DecimalInjective(n, m);
    DigitsInjective(i, j);
  }

  /** The labels these nodes put on a ring. */
  function LabelsOf(nodes: set<int>, virtualNodes: nat): set<string> {
    set n, i: nat | n in nodes && i < virtualNodes :: Label(n, i)
  }

  /** The hash gives different labels different positions. */
  ghost predicate TellsApart(hashKey: string -> Hash, labels: set<string>) {
    forall a, b :: a in labels && b in labels && hashKey(a) == hashKey(b) ==> a == b
  }

  function StandardLayout(hashKey: string -> Hash, virtualNodes: nat): Layout {
    Layout(hashKey, Label, virtualNodes)
  }

  /** No two virtual nodes of these nodes collide if and only if the hash tells their finitely
      many labels apart: the naming scheme itself adds no collisions. */
  lemma OnlyTheHashCollides(hashKey: string -> Hash, virtualNodes: nat, nodes: set<int>)
    ensures NoCollisions(StandardLayout(hashKey, virtualNodes), nodes) <==>
            TellsApart(hashKey, LabelsOf(nodes, virtualNodes))
  {
    var l := StandardLayout(hashKey, virtualNodes);
    if TellsApart(hashKey, LabelsOf(nodes, virtualNodes)) {
      forall n, m, i: nat, j: nat
        | n in nodes && m in nodes && i < virtualNodes && j < virtualNodes && Position(l, n, i) == Position(l, m, j)
        ensures n == m && i == j
      {
        assert Label(n, i) in LabelsOf(nodes, virtualNodes) && Label(m, j) in LabelsOf(nodes, virtualNodes);
        LabelInjective(n, i, m, j);
      }
    }
    if NoCollisions(l, nodes) {
      forall a, b | a in LabelsOf(nodes, virtualNodes) && b in LabelsOf(nodes, virtualNodes) && hashKey(a) == hashKey(b)
        ensures a == b
      {
        var n, i: nat :| n in nodes && i < virtualNodes && Label(n, i) == a;
        var m, j: nat :| m in nodes && j < virtualNodes && Label(m, j) == b;
        assert Position(l, n, i) == Position(l, m, j);
      }
    }
  }
}
