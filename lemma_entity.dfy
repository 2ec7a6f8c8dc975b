/** searchengine.entity.Lemma: the JPA entity holding a lemma's text, its
    site and its frequency counter. Equality and hashing leave out `id`. */
module LemmaEntity {
  import opened Common

  /** Java's `int`. */
  newtype int32 = x: int | -0x8000_0000 <= x < 0x8000_0000

  const MaxInt: int32 := 0x7fff_ffff
  const MinInt: int32 := -0x8000_0000

  /** `x++` on an int: one more, except that the largest value wraps to the
      smallest. */
  function Succ(x: int32): (r: int32)
    ensures x < MaxInt ==> r as int == x as int + 1
    ensures x == MaxInt ==> r == MinInt
    ensures (r as int - x as int - 1) % 0x1_0000_0000 == 0
  {
    if x == MaxInt then MinInt else x + 1
  }

  /** No two counter values step to the same value: an increment loses no
      information, even when it wraps. */
  lemma SuccInjective(a: int32, b: int32)
    requires Succ(a) == Succ(b)
    ensures a == b
  {
  }

  /** The counter after `n` increments. */
  function Increments(x: int32, n: nat): int32
    decreases n
  {
    if n == 0 then x else Increments(Succ(x), n - 1)
  }

  /** Until it reaches the largest int, the counter counts increments exactly;
      one more increment turns it negative. */
  lemma {:induction false} IncrementsCount(x: int32, n: nat)
    requires x as int + n <= MaxInt as int
    ensures Increments(x, n) as int == x as int + n
    ensures x as int + n == MaxInt as int ==> Increments(x, n + 1) == MinInt
    decreases n
  {
    if n > 0 {
      IncrementsCount(Succ(x), n - 1);
    } else if x == MaxInt {
      assert Increments(x, 1) == Increments(MinInt, 0);
    }
  }

  /** The fields of a Lemma object. `site` is the referenced site's id and
      None stands for a null reference; `lemmaText` is None for null. */
  datatype LemmaValue = LemmaValue(id: int32, site: Option<nat>, lemmaText: Option<string>, frequency: int32)

  /** Lombok's `equals` with `exclude = "id"`. */
  function SameLemma(a: LemmaValue, b: LemmaValue): (r: bool)
    ensures r <==> a.(id := 0) == b.(id := 0)
  {
    a.site == b.site && a.lemmaText == b.lemmaText && a.frequency == b.frequency
  }

  /** The fields `hashCode` is computed from: the same ones `equals` compares. */
  function HashKey(a: LemmaValue): (r: (Option<nat>, Option<string>, int32))
    ensures r.0 == a.site && r.1 == a.lemmaText && r.2 == a.frequency
  {
    (a.site, a.lemmaText, a.frequency)
  }

  /** Equal lemmas hash alike, and two lemmas that differ only in id are
      equal. */
  lemma EqualityIgnoresId(a: LemmaValue, b: LemmaValue, id: int32)
    ensures SameLemma(a, b) <==> HashKey(a) == HashKey(b)
    ensures SameLemma(a, a.(id := id))
  {
  }

  /** `SameLemma` is an equivalence, as `equals` must be. */
  lemma SameLemmaIsEquivalence(a: LemmaValue, b: LemmaValue, c: LemmaValue)
    ensures SameLemma(a, a)
    ensures SameLemma(a, b) ==> SameLemma(b, a)
    ensures SameLemma(a, b) && SameLemma(b, c) ==> SameLemma(a, c)
  {
  }

  class Lemma {
    var id: int32
    var site: Option<nat>
    var lemmaText: Option<string>
    var frequency: int32

    function Value(): LemmaValue
      reads this
    {
      LemmaValue(id, site, lemmaText, frequency)
    }

    /** `new Lemma()`: every field at its default, frequency 0. */
    constructor ()
      ensures Value() == LemmaValue(0, None, None, 0)
    {
      id, site, lemmaText, frequency := 0, None, None, 0;
    }

    /** `new Lemma(site, lemmaText)`: frequency starts at 1, the id is left
        for the database to assign. */
    constructor WithText(site: Option<nat>, lemmaText: Option<string>)
      ensures Value() == LemmaValue(0, site, lemmaText, 1)
    {
      this.id := 0;
      this.site := site;
      this.lemmaText := lemmaText;
      this.frequency := 1;
    }

    /** `incrementFrequency()`. */
    method IncrementFrequency()
      modifies this
      ensures Value() == old(Value()).(frequency := Succ(old(frequency)))
    {
      frequency := if frequency == MaxInt then MinInt else frequency + 1;
    }

    predicate Equals(other: Lemma)
      reads this, other
    {
      SameLemma(Value(), other.Value())
    }
  }

  /** Equality follows the counter: once one of two equal lemmas is
      incremented they are no longer equal, so a lemma held in a hashed
      collection is not found again after `incrementFrequency`. */
  lemma IncrementChangesEquality(a: LemmaValue, b: LemmaValue)
    requires SameLemma(a, b)
    ensures !SameLemma(a.(frequency := Succ(a.frequency)), b)
  {
  }

  /** Counting through the entity: a lemma made with its text and then
      incremented `n` times holds frequency `n + 1`, as long as that fits in
      an int. */
  lemma CreatedThenIncremented(site: Option<nat>, text: Option<string>, n: nat)
    requires n < MaxInt as int
    ensures Increments(LemmaValue(0, site, text, 1).frequency, n) as int == n + 1
  {
    IncrementsCount(1, n);
  }
}
