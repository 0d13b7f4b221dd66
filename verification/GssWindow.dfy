/** The sequence window of an established RPCSEC_GSS context (section 5.3.3.1 of RFC 2203). */
module GssWindow {
  import opened Bytes

  const MAXSEQ: word := 0x8000_0000
  const WIN := 32  // sizeof(seqmask) * 8

  datatype Verdict = Pass | TooLarge | Discard

  /** A u_int32_t as its bits, the least significant first. */
  type mask32 = m: seq<bool> | |m| == 32 witness seq(32, _ => false)

  const NO_BITS: mask32 := seq(32, _ => false)

  /** m <<= n. Shifting 32 bits or more leaves none, which C does not promise. */
  function ShiftLeft(m: mask32, n: nat): mask32 {
    if n >= 32 then NO_BITS else seq(n, _ => false) + m[..32 - n]
  }

  /** The difference of two u_ints, read as an int. */
  function IntDifference(a: word, b: word): int {
    var d := (a - b) % TWO_32;
    if d >= TWO_31 then d - TWO_32 else d
  }

  /** Up to 2^31 it is the difference, except that 2^31 itself has no positive int. */
  lemma SmallDifference(a: word, b: word)
    requires a <= TWO_31 && b <= TWO_31
    ensures IntDifference(a, b) == a - b <==> !(a == TWO_31 && b == 0)
  {}

  /** What has happened on a context: the newest number that passed, 0 if none did, and all that passed. */
  datatype Seen = Seen(last: word, passed: set<word>)

  /** The rule: a number passes when it is newer than all, or within the window and has not passed before. */
  predicate Rule(s: Seen, n: word) {
    n <= MAXSEQ && (n > s.last || (s.last - n < WIN && n !in s.passed))
  }

  /** The window is as wide as the mask: 32 numbers, the newest included. */
  lemma RuleIs(s: Seen, n: word)
    ensures Rule(s, n) <==> n <= 0x8000_0000 && (n > s.last || (s.last < n + |NO_BITS| && n !in s.passed))
    ensures |NO_BITS| == 32
  {}

  /** Bit i tells whether `last` - i has passed. */
  ghost predicate Marks(m: mask32, s: Seen) {
    forall i | 0 <= i < 32 :: m[i] <==> s.last - i in s.passed
  }

  lemma NewerMarked(m: mask32, s: Seen, n: word)
    requires Marks(m, s) && Recorded(s) && s.last < n
    ensures Marks(ShiftLeft(m, n - s.last)[0 := true], Seen(n, s.passed + {n}))
  {
    var now := ShiftLeft(m, n - s.last)[0 := true];
    forall i | 0 <= i < 32 ensures now[i] <==> n - i in s.passed + {n} {
      assert i >= n - s.last ==> now[i] == m[i - (n - s.last)];
    }
  }

  lemma OlderMarked(m: mask32, s: Seen, offset: nat)
    requires Marks(m, s) && offset < 32 && offset <= s.last
    ensures Marks(m[offset := true], Seen(s.last, s.passed + {s.last - offset}))
  {}

  class Context {
    var seqlast: word
    var seqmask: mask32
    ghost var passed: set<word>

    /** The mask records what has passed, of which nothing is newer than seqlast. */
    ghost predicate Valid()
      reads this
    {
      && seqlast <= MAXSEQ
      && Recorded(History())
      && Marks(seqmask, History())
    }

    ghost function History(): Seen
      reads this
    {
      Seen(seqlast, passed)
    }

    constructor ()
      ensures Valid() && seqlast == 0 && passed == {}
    {
      seqlast, seqmask, passed := 0, NO_BITS, {};
    }

    /**
     * The sequence check of _svcauth_gss. It follows the rule, and stays able to, at every step but one:
     * number 0 on a context that has let MAXSEQ through.
     */
    method CheckSeq(seqno: word) returns (v: Verdict)
      modifies this
      ensures v == TooLarge <==> seqno > MAXSEQ
      ensures v != Pass ==> unchanged(this)
      ensures v == Pass ==> passed == old(passed) + {seqno}
      ensures seqno <= MAXSEQ && IntDifference(old(seqlast), seqno) < 0 ==> v == Pass && seqlast == seqno
      ensures old(Valid()) ==>
                ((v == Pass <==> Rule(old(History()), seqno)) <==> !(old(seqlast) == MAXSEQ && seqno == 0))
      ensures old(Valid()) && !(old(seqlast) == MAXSEQ && seqno == 0) ==>
                Valid() && History() == After(old(History()), seqno)
    {
      if seqno > MAXSEQ {
        return TooLarge;
      }
      var offset := IntDifference(seqlast, seqno);
      if seqlast <= MAXSEQ {
        SmallDifference(seqlast, seqno);
      }
      if old(Valid()) && seqlast < seqno {
        NewerMarked(seqmask, History(), seqno);
      } else if old(Valid()) && seqlast - seqno < WIN {
        OlderMarked(seqmask, History(), seqlast - seqno);
      }
      hide Marks, ShiftLeft, IntDifference;
      if offset < 0 {
        seqlast := seqno;
        offset := 0 - offset;
        seqmask := ShiftLeft(seqmask, offset);
        offset := 0;
      } else if offset >= WIN || seqmask[offset] {
        return Discard;
      }
      seqmask := seqmask[offset := true];
      passed := passed + {seqno};
      return Pass;
    }
  }

  /** Nothing that passed is newer than `last`, which passed itself. */
  ghost predicate Recorded(s: Seen) {
    (forall n <- s.passed :: n <= s.last) && if s.passed == {} then s.last == 0 else s.last in s.passed
  }

  function After(s: Seen, n: word): Seen {
    if Rule(s, n) then Seen(if n > s.last then n else s.last, s.passed + {n}) else s
  }

  /** The history that the rule makes of a run. */
  function Window(numbers: seq<word>): Seen {
    if numbers == [] then Seen(0, {}) else After(Window(numbers[..|numbers| - 1]), numbers[|numbers| - 1])
  }

  /** Whether the rule lets the i-th number pass. */
  predicate Passes(numbers: seq<word>, i: nat)
    requires i < |numbers|
  {
    Rule(Window(numbers[..i]), numbers[i])
  }

  predicate NewMaximum(numbers: seq<word>, i: nat)
    requires i < |numbers|
  {
    forall j | 0 <= j < i :: numbers[j] < numbers[i]
  }

  lemma WindowSnoc(numbers: seq<word>, i: nat)
    requires i < |numbers|
    ensures Window(numbers[..i + 1]) == After(Window(numbers[..i]), numbers[i])
  {
    assert numbers[..i + 1][..i] == numbers[..i];
  }

  /** What the rule records: numbers of the run only, none above MAXSEQ, and MAXSEQ as soon as it came. */
  lemma {:induction false} WindowRecords(numbers: seq<word>)
    ensures var s := Window(numbers);
            && Recorded(s) && s.last <= MAXSEQ
            && (forall n <- s.passed :: n in numbers)
            && (s.last == MAXSEQ <==> MAXSEQ in numbers)
  {
    if numbers != [] {
      var k := |numbers| - 1;
      WindowRecords(numbers[..k]);
      assert numbers == numbers[..k] + [numbers[k]];
    }
  }

  /** What has passed is never forgotten. */
  lemma {:induction false} WindowGrows(numbers: seq<word>, i: nat, j: nat)
    requires i <= j <= |numbers|
    ensures Window(numbers[..i]).passed <= Window(numbers[..j]).passed
    decreases j
  {
    if i < j {
      WindowGrows(numbers, i, j - 1);
      WindowSnoc(numbers, j - 1);
    }
  }

  /** By the rule no number passes twice. */
  lemma NoneTwice(numbers: seq<word>, i: nat, j: nat)
    requires i < j < |numbers| && Passes(numbers, i) && Passes(numbers, j)
    ensures numbers[i] != numbers[j]
  {
    WindowSnoc(numbers, i);
    WindowGrows(numbers, i + 1, j);
    WindowRecords(numbers[..j]);
  }

  /** And every new maximum passes that is not too large. */
  lemma NewestPasses(numbers: seq<word>, i: nat)
    requires i < |numbers| && NewMaximum(numbers, i) && numbers[i] <= MAXSEQ
    ensures Passes(numbers, i)
  {
    WindowRecords(numbers[..i]);
    var s := Window(numbers[..i]);
    assert s.passed != {} ==> s.last in numbers[..i];
  }

  /** A run in which 0 comes after MAXSEQ. */
  predicate ZeroAfterMaxSeq(numbers: seq<word>) {
    exists i, j | 0 <= i < j < |numbers| :: numbers[i] == MAXSEQ && numbers[j] == 0
  }

  ghost predicate Follows(numbers: seq<word>, verdicts: seq<Verdict>)
    requires |verdicts| <= |numbers|
  {
    forall i: nat | i < |verdicts| :: verdicts[i] == Pass <==> Passes(numbers, i)
  }

  /**
   * Over a whole run, the verdicts are those of the rule exactly when no 0 comes after MAXSEQ. Then no
   * number passes twice, and every new maximum passes that is not too large.
   */
  method Run(numbers: seq<word>) returns (verdicts: seq<Verdict>)
    ensures |verdicts| == |numbers|
    ensures Follows(numbers, verdicts) <==> !ZeroAfterMaxSeq(numbers)
    ensures forall i | 0 <= i < |numbers| :: verdicts[i] == TooLarge <==> numbers[i] > MAXSEQ
    ensures !ZeroAfterMaxSeq(numbers) ==>
              && (forall i, j | 0 <= i < j < |numbers| && verdicts[i] == Pass && verdicts[j] == Pass ::
                    numbers[i] != numbers[j])
              && (forall i: nat | i < |numbers| && NewMaximum(numbers, i) && numbers[i] <= MAXSEQ ::
                    verdicts[i] == Pass)
  {
    hide NewMaximum;
    var c := new Context();
    verdicts := [];
    while |verdicts| < |numbers|
      invariant |verdicts| <= |numbers| && fresh(c)
      invariant Follows(numbers, verdicts) <==> !ZeroAfterMaxSeq(numbers[..|verdicts|])
      invariant Follows(numbers, verdicts) ==> c.Valid() && c.History() == Window(numbers[..|verdicts|])
      invariant Measured(numbers, verdicts)
      decreases |numbers| - |verdicts|
    {
      var k := |verdicts|;
      WindowSnoc(numbers, k);
      hide Window, Rule, ZeroAfterMaxSeq, Follows, After, IntDifference, Measured, Marks, Recorded;
      var v := c.CheckSeq(numbers[k]);
      StepFollows(numbers, verdicts, v);
      MeasuredSnoc(numbers, verdicts, v);
      verdicts := verdicts + [v];
    }
    assert numbers[..|numbers|] == numbers;
    if !ZeroAfterMaxSeq(numbers) {
      FollowsRule(numbers, verdicts);
    }
  }

  /** Verdicts that follow the rule let no number pass twice, and every new maximum. */
  lemma FollowsRule(numbers: seq<word>, verdicts: seq<Verdict>)
    requires |verdicts| == |numbers| && Follows(numbers, verdicts)
    ensures forall i, j | 0 <= i < j < |numbers| && verdicts[i] == Pass && verdicts[j] == Pass ::
              numbers[i] != numbers[j]
    ensures forall i: nat | i < |numbers| && NewMaximum(numbers, i) && numbers[i] <= MAXSEQ :: verdicts[i] == Pass
  {
    hide NewMaximum, Window, Rule;
    forall i, j | 0 <= i < j < |numbers| && verdicts[i] == Pass && verdicts[j] == Pass
      ensures numbers[i] != numbers[j]
    {
      NoneTwice(numbers, i, j);
    }
    forall i: nat | i < |numbers| && NewMaximum(numbers, i) && numbers[i] <= MAXSEQ ensures verdicts[i] == Pass {
      NewestPasses(numbers, i);
    }
  }

  /** Exactly the numbers above MAXSEQ are too large. */
  ghost predicate Measured(numbers: seq<word>, verdicts: seq<Verdict>)
    requires |verdicts| <= |numbers|
  {
    forall i | 0 <= i < |verdicts| :: verdicts[i] == TooLarge <==> numbers[i] > MAXSEQ
  }

  lemma MeasuredSnoc(numbers: seq<word>, verdicts: seq<Verdict>, v: Verdict)
    requires |verdicts| < |numbers| && Measured(numbers, verdicts)
    ensures (v == TooLarge <==> numbers[|verdicts|] > MAXSEQ) ==> Measured(numbers, verdicts + [v])
  {}

  lemma OneMoreVerdict(numbers: seq<word>, verdicts: seq<Verdict>, v: Verdict)
    requires |verdicts| < |numbers|
    ensures Follows(numbers, verdicts + [v]) <==>
            Follows(numbers, verdicts) && (v == Pass <==> Rule(Window(numbers[..|verdicts|]), numbers[|verdicts|]))
  {
    hide Rule, Window;
    var more := verdicts + [v];
    assert forall i: nat | i < |verdicts| :: more[i] == verdicts[i];
    assert more[|verdicts|] == v;
    assert Follows(numbers, more) ==> forall i: nat | i < |verdicts| :: more[i] == Pass <==> Passes(numbers, i);
  }

  /** One step more: the verdicts go on following the rule unless it is 0 after MAXSEQ. */
  lemma StepFollows(numbers: seq<word>, verdicts: seq<Verdict>, v: Verdict)
    requires |verdicts| < |numbers|
    requires Follows(numbers, verdicts) <==> !ZeroAfterMaxSeq(numbers[..|verdicts|])
    requires var s, n := Window(numbers[..|verdicts|]), numbers[|verdicts|];
             Follows(numbers, verdicts) ==> ((v == Pass <==> Rule(s, n)) <==> !(s.last == MAXSEQ && n == 0))
    ensures Follows(numbers, verdicts + [v]) <==> !ZeroAfterMaxSeq(numbers[..|verdicts| + 1])
  {
    WindowRecords(numbers[..|verdicts|]);
    OneMoreNumber(numbers, |verdicts|);
    OneMoreVerdict(numbers, verdicts, v);
    hide Window, Rule, ZeroAfterMaxSeq, Follows;
  }

  lemma OneMoreNumber(numbers: seq<word>, k: nat)
    requires k < |numbers|
    ensures ZeroAfterMaxSeq(numbers[..k + 1]) <==>
            ZeroAfterMaxSeq(numbers[..k]) || (MAXSEQ in numbers[..k] && numbers[k] == 0)
  {
    var front, all := numbers[..k], numbers[..k + 1];
    assert forall i | 0 <= i < k :: front[i] == all[i];
    assert all[k] == numbers[k];
  }

  /**
   * After MAXSEQ and then 0, a number that was the newest before passes a second time.
   */
  method ReplayAfterMaxSeq(c: Context, seqno: word) returns (verdicts: seq<Verdict>)
    requires c.Valid() && c.seqlast < seqno < MAXSEQ
    modifies c
    ensures verdicts == [Pass, Pass, Pass, Pass]
  {
    var first := c.CheckSeq(seqno);
    var second := c.CheckSeq(MAXSEQ);
    var third := c.CheckSeq(0);
    var again := c.CheckSeq(seqno);
    verdicts := [first, second, third, again];
  }
}
