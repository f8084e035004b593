/**
 * What `main` does between reading the configuration and starting the
 * threads, and one pass of a philosopher's loop between thinking and the
 * next thought.
 */
module Simulation {
  import opened Results
  import opened JavaInt
  import opened JavaString
  import opened ConfigFile
  import opened ForkPolicy
  import opened Forks
  import opened Statistics

  /** Why `main` stops before starting any philosopher. */
  datatype StartError =
    | UnsupportedVariant(variacao: Option<string>)   // the message about variacao=simetria, then return
    | NegativeArraySize(size: int)                   // NegativeArraySizeException from `new Semaphore[n]`

  /**
   * The variant check, then the size of the arrays `main` allocates: the
   * simulation starts exactly when the variant is "simetria" and the number
   * of philosophers is not negative, and then with that many philosophers.
   */
  function Gate(c: Config): (r: Result<nat, StartError>)
    ensures r.Ok? <==> c.variacao == Some("simetria") && c.filosofos >= 0
    ensures r.Ok? ==> r.value == c.filosofos
    ensures c.variacao != Some("simetria") ==> r == Err(UnsupportedVariant(c.variacao))
    ensures c.variacao == Some("simetria") && c.filosofos < 0 ==> r == Err(NegativeArraySize(c.filosofos))
  {
    if c.variacao != Some("simetria") then Err(UnsupportedVariant(c.variacao))
    else if c.filosofos < 0 then Err(NegativeArraySize(c.filosofos))
    else Ok(c.filosofos)
  }

  /**
   * A `variacao` line whose value is "simetria" in any letter case, under a
   * key spelled in any letter case, lets the simulation start.
   */
  lemma VariantAnyCaseAccepted(c: Config, line: string, k: string, v: string)
    requires Trim(line) == k + "=" + v
    requires '=' !in k && '=' !in v && v != []
    requires ToLower(Trim(k)) == "variacao" && ToLower(Trim(v)) == "simetria"
    ensures ApplyLine(c, line) == Ok(c.(variacao := Some("simetria")))
    ensures c.filosofos >= 0 ==> Gate(ApplyLine(c, line).value) == Ok(c.filosofos)
  {
    assert k != [];
    assert !IsTrimmable(k[0]) by {
      assert Trim(line)[0] == k[0];
    }
    TrimKeepsFirst(k);
    assert LowerChar(k[0]) == 'v';
    KeyValueLine(line, k, v);
  }

  /** "5" is read as 5. */
  lemma ParseFive()
    ensures ParseInt("5") == Some(5)
  {
    assert AllDigits("5");
    assert DigitsValue("5") == 5 by {
      assert "5"[..0] == [];
    }
  }

  /**
   * A `filosofos` line, under a key spelled in any letter case, sets the
   * number of philosophers to the integer its value spells.
   */
  lemma PhilosophersLine(c: Config, line: string, k: string, v: string, n: int32)
    requires Trim(line) == k + "=" + v
    requires '=' !in k && '=' !in v && v != []
    requires ToLower(Trim(k)) == "filosofos" && ParseInt(Trim(v)) == Some(n)
    ensures ApplyLine(c, line) == Ok(c.(filosofos := n))
  {
    assert k != [];
    assert !IsTrimmable(k[0]) by {
      assert Trim(line)[0] == k[0];
    }
    TrimKeepsFirst(k);
    assert LowerChar(k[0]) == 'f';
    KeyValueLine(line, k, v);
  }

  /** "filosofos=5" sets the number of philosophers to 5. */
  lemma FilosofosLine(c: Config)
    ensures ApplyLine(c, "filosofos=5") == Ok(c.(filosofos := 5))
  {
    var line := "filosofos=5";
    TrimUntrimmed(line);
    assert line == "filosofos" + "=" + "5";
    TrimUntrimmed("filosofos");
    TrimUntrimmed("5");
    assert LowerCase("filosofos");
    ParseFive();
    PhilosophersLine(c, line, "filosofos", "5", 5);
  }

  /** "variacao=SIMETRIA" stores the variant lower-cased. */
  lemma UpperCaseVariantLine(c: Config)
    ensures ApplyLine(c, "variacao=SIMETRIA") == Ok(c.(variacao := Some("simetria")))
  {
    var line := "variacao=SIMETRIA";
    TrimUntrimmed(line);
    assert line == "variacao" + "=" + "SIMETRIA";
    TrimUntrimmed("variacao");
    TrimUntrimmed("SIMETRIA");
    assert LowerCase("variacao");
    assert ToLower("SIMETRIA") == "simetria";
    VariantAnyCaseAccepted(c, line, "variacao", "SIMETRIA");
  }

  /** The file "filosofos=5" then "variacao=SIMETRIA" starts five philosophers. */
  lemma SampleConfiguration()
    ensures Parse(["filosofos=5", "variacao=SIMETRIA"]) == Ok(Default.(filosofos := 5, variacao := Some("simetria")))
    ensures Gate(Parse(["filosofos=5", "variacao=SIMETRIA"]).value) == Ok(5)
  {
    var l1, l2 := "filosofos=5", "variacao=SIMETRIA";
    ParseSnoc([], l1);
    assert [] + [l1] == [l1];
    FilosofosLine(Default);
    ParseSnoc([l1], l2);
    assert [l1] + [l2] == [l1, l2];
    UpperCaseVariantLine(Default.(filosofos := 5));
  }

  /** The arrays `main` builds before starting the philosophers. */
  datatype Table = Table(forks: array<int>, refeicoes: array<int32>, esperaTotalMs: array<int64>)

  /** `main` after reading the configuration: the variant check, then forks all free and statistics all zero. */
  method Start(c: Config) returns (r: Result<Table, StartError>)
    ensures Gate(c).Err? ==> r == Err(Gate(c).error)
    ensures Gate(c).Ok? ==> r.Ok?
    ensures r.Ok? ==>
      var t := r.value;
      fresh(t.forks) && fresh(t.refeicoes) && fresh(t.esperaTotalMs) &&
      t.forks.Length == t.refeicoes.Length == t.esperaTotalMs.Length == c.filosofos &&
      AllFree(t.forks[..]) &&
      forall i :: 0 <= i < c.filosofos ==> t.refeicoes[i] == 0 && t.esperaTotalMs[i] == 0
  {
    var gate := Gate(c);
    if gate.Err? {
      return Err(gate.error);
    }
    var n := gate.value;
    var forks := NewForks(n);
    var refeicoes, esperaTotalMs := NewStats(n);
    return Ok(Table(forks, refeicoes, esperaTotalMs));
  }

  /**
   * Neither acquire of philosopher id would block: its first fork has a
   * permit, and its second has one more (two if both are the same fork).
   */
  predicate CanEat(permits: seq<int>, id: int)
    requires 0 <= id < |permits|
  {
    var pair := ForkOrder(id, |permits|, true);
    permits[pair.first] >= 1 && permits[pair.second] >= (if pair.second == pair.first then 2 else 1)
  }

  /** With all forks free and at least two philosophers, any philosopher can take both its forks. */
  lemma FreeForksLetAnyoneEat(permits: seq<int>, id: int)
    requires AllFree(permits) && |permits| >= 2 && 0 <= id < |permits|
    ensures CanEat(permits, id)
  {
  }

  /** A lone philosopher names fork 0 twice and blocks on its own fork (Semaphore is not reentrant). */
  lemma LonePhilosopherBlocksItself(permits: seq<int>)
    requires AllFree(permits) && |permits| == 1
    ensures ForkOrder(0, 1, true) == ForkPair(0, 0)
    ensures !CanEat(permits, 0)
  {
  }

  /** Where an InterruptedException ends a pass of the loop. */
  datatype Interruption = NotInterrupted | AtFirstAcquire | AtSecondAcquire

  /**
   * One pass of Philosopher.run after thinking, with `simetria` true as
   * `main` always passes it: acquire the first fork, then the second, record
   * the meal, and in `finally` release the first and then the second. The
   * eating sleep swallows its own interrupts, so only an acquire can be
   * interrupted; `finally` then still releases both forks, adding a permit
   * to any fork that was not acquired.
   */
  method MealCycle(forks: array<int>, refeicoes: array<int32>, esperaTotalMs: array<int64>,
                   id: int, inicioEspera: int64, fimEspera: int64, interrupt: Interruption)
    requires forks.Length == refeicoes.Length == esperaTotalMs.Length
    requires 0 <= id < forks.Length
    requires interrupt == AtSecondAcquire ==> forks[ForkOrder(id, forks.Length, true).first] >= 1
    requires interrupt == NotInterrupted ==> CanEat(forks[..], id)
    modifies forks, refeicoes, esperaTotalMs
    ensures var pair := ForkOrder(id, forks.Length, true);
      forks[..] == match interrupt
        case NotInterrupted => old(forks[..])
        case AtSecondAcquire => Bump(old(forks[..]), pair.second)
        case AtFirstAcquire => Bump(Bump(old(forks[..]), pair.first), pair.second)
    ensures interrupt == NotInterrupted ==>
      refeicoes[..] == old(refeicoes[..])[id := Wrap32(old(refeicoes[id]) as int + 1)] &&
      esperaTotalMs[..] == old(esperaTotalMs[..])[id := Wrap64(old(esperaTotalMs[id]) as int + Wrap64(fimEspera - inicioEspera))]
    ensures interrupt != NotInterrupted ==>
      refeicoes[..] == old(refeicoes[..]) && esperaTotalMs[..] == old(esperaTotalMs[..])
  {
    var pair := ForkOrder(id, forks.Length, true);
    if interrupt != AtFirstAcquire {
      Acquire(forks, pair.first);
      if interrupt == NotInterrupted {
        Acquire(forks, pair.second);
        RecordMeal(refeicoes, esperaTotalMs, id, inicioEspera, fimEspera);
      }
    }
    Release(forks, pair.first);
    Release(forks, pair.second);
  }
}
