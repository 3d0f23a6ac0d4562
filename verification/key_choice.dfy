/**
 The choice of API key by question number (src/app/services/service.py:236-252):
 questions are served in buckets of six by `GEMINI_KEY_1` … `GEMINI_KEY_4`, the last
 key taking every question past the eighteenth. The environment is a map from variable
 names to values.
 */
module KeyChoice {
  import opened Wrappers
  import opened Chars
  import opened Numerals

  /** Which of the four keys serves question `q` (lines 238-245). */
  function Bucket(q: int): nat {
    if q <= 6 then 1
    else if q <= 12 then 2
    else if q <= 18 then 3
    else 4
  }

  /** The environment variable that holds the key of question `q`. */
  function KeyName(q: int): string {
    "GEMINI_KEY_" + [DigitChar(Bucket(q))]
  }

  /** The message of the `ValueError` raised when the key is missing or empty (lines 247-250). */
  function MissingKey(q: int): string {
    "Chave n\U{E3}o configurada para quest\U{E3}o #" + IntToString(q)
    + ". Verifique as vari\U{E1}veis de ambiente GEMINI_KEY_*"
  }

  /** `key_choice(q)`: the key, or the `ValueError` message when the variable is unset or empty (`if not key`). */
  function ChooseKey(env: map<string, string>, q: int): (r: Result<string, string>)
    ensures r.Success? <==> KeyName(q) in env && env[KeyName(q)] != []
    ensures r.Success? ==> r.value == env[KeyName(q)]
    ensures r.Failure? ==> r.error == MissingKey(q)
  {
    var name := KeyName(q);
    if name in env && env[name] != [] then Success(env[name]) else Failure(MissingKey(q))
  }

  /**
   The buckets by arithmetic: questions up to six (and any number below one) go to the
   first key; from there on each key takes six consecutive questions, and the fourth
   key takes all the rest.
   */
  lemma BucketArithmetic(q: int)
    ensures 1 <= Bucket(q) <= 4
    ensures q <= 6 ==> Bucket(q) == 1
    ensures 1 <= q <= 24 ==> Bucket(q) == (q - 1) / 6 + 1
    ensures q > 18 ==> Bucket(q) == 4
  {
    if 1 <= q <= 24 {
      if q <= 6 {
        assert (q - 1) / 6 == 0;
      } else if q <= 12 {
        assert (q - 1) / 6 == 1;
      } else if q <= 18 {
        assert (q - 1) / 6 == 2;
      } else {
        assert (q - 1) / 6 == 3;
      }
    }
  }

  /** Later questions never go to an earlier key. */
  lemma BucketMonotone(p: int, q: int)
    requires p <= q
    ensures Bucket(p) <= Bucket(q)
  {
  }

  /** Different buckets read different variables, and questions of one bucket share theirs. */
  lemma KeyNameDistinct(p: int, q: int)
    ensures KeyName(p) == KeyName(q) <==> Bucket(p) == Bucket(q)
  {
    if KeyName(p) == KeyName(q) {
      assert KeyName(p)[11] == KeyName(q)[11];
      assert DigitValue(DigitChar(Bucket(p))) == Bucket(p);
      assert DigitValue(DigitChar(Bucket(q))) == Bucket(q);
    }
  }
}
