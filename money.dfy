/** The part of a money value the ledger relies on: a currency and a fixed-scale amount,
    kept here as an integer number of minor units (cents for USD). */
module Monetary {
  import opened Errors

  /** A currency, identified by its ISO 4217 code; two units are equal iff their codes are. */
  datatype Currency = Currency(code: string)

  datatype Money = Money(currency: Currency, amount: int) {

    predicate IsNegative() {
      amount < 0
    }

    /** Addition; `None` stands for the CurrencyMismatchException thrown when the currencies differ. */
    function Plus(other: Money): Option<Money> {
      if other.currency == currency then Some(Money(currency, amount + other.amount)) else None
    }
  }

  function Zero(currency: Currency): Money {
    Money(currency, 0)
  }

  /** The message of the CurrencyMismatchException raised by `a.Plus(b)`. */
  function CurrencyMismatch(first: Currency, second: Currency): string {
    "Currencies differ: " + first.code + "/" + second.code
  }

  /** Amounts of different currencies are never combined: `Plus` refuses them, and is
      defined exactly when the currencies agree. */
  lemma PlusDefinedIffSameCurrency(a: Money, b: Money)
    ensures a.Plus(b).Some? <==> a.currency == b.currency
    ensures a.Plus(b).Some? ==> a.Plus(b).value.currency == a.currency
  {
  }
}
