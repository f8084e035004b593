/** The per-philosopher statistics: meal counts (`int[]`) and total waits in milliseconds (`long[]`). */
module Statistics {
  import opened JavaInt

  /** The sum of a table column, in unbounded arithmetic. */
  function Sum(s: seq<int>): int
    decreases |s|
  {
    if s == [] then 0 else Sum(s[..|s| - 1]) + s[|s| - 1]
  }

  /** Changing one slot changes the sum by exactly the change in that slot. */
  lemma {:induction false} SumUpdate(s: seq<int>, id: int, x: int)
    requires 0 <= id < |s|
    ensures Sum(s[id := x]) == Sum(s) - s[id] + x
    decreases |s|
  {
    var t := s[id := x];
    if id < |s| - 1 {
      assert t[..|t| - 1] == s[..|s| - 1][id := x];
      SumUpdate(s[..|s| - 1], id, x);
    } else {
      assert t[..|t| - 1] == s[..|s| - 1];
    }
  }

  /** `new int[n]` and `new long[n]`: every slot 0. */
  method NewStats(n: nat) returns (refeicoes: array<int32>, esperaTotalMs: array<int64>)
    ensures fresh(refeicoes) && fresh(esperaTotalMs)
    ensures refeicoes.Length == n && esperaTotalMs.Length == n
    ensures forall i :: 0 <= i < n ==> refeicoes[i] == 0 && esperaTotalMs[i] == 0
  {
    refeicoes := new int32[n](_ => 0);
    esperaTotalMs := new int64[n](_ => 0);
  }

  /**
   * `refeicoes[id]++; esperaTotalMs[id] += espera;` with
   * `espera = fimEspera - inicioEspera`, all in Java arithmetic.
   */
  method RecordMeal(refeicoes: array<int32>, esperaTotalMs: array<int64>, id: int, inicioEspera: int64, fimEspera: int64)
    requires 0 <= id < refeicoes.Length && id < esperaTotalMs.Length
    modifies refeicoes, esperaTotalMs
    ensures refeicoes[..] == old(refeicoes[..])[id := Wrap32(old(refeicoes[id]) as int + 1)]
    ensures esperaTotalMs[..] == old(esperaTotalMs[..])[id := Wrap64(old(esperaTotalMs[id]) as int + Wrap64(fimEspera - inicioEspera))]
    ensures old(refeicoes[id]) < INT_MAX ==> refeicoes[id] == old(refeicoes[id]) + 1
    ensures old(refeicoes[id]) < INT_MAX ==> Sum(refeicoes[..]) == Sum(old(refeicoes[..])) + 1
    ensures 0 <= inicioEspera <= fimEspera && old(esperaTotalMs[id]) + (fimEspera - inicioEspera) <= LONG_MAX ==>
      old(esperaTotalMs[id]) <= esperaTotalMs[id] == old(esperaTotalMs[id]) + (fimEspera - inicioEspera)
  {
    SumUpdate(refeicoes[..], id, Wrap32(refeicoes[id] as int + 1));
    refeicoes[id] := Wrap32(refeicoes[id] as int + 1);
    var espera := Wrap64(fimEspera - inicioEspera);
    esperaTotalMs[id] := Wrap64(esperaTotalMs[id] as int + espera);
  }
}
