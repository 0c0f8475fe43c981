/** Decimal printing of row ids, and the account names built from it. */
module Decimal {

  function Digit(d: nat): (c: char)
    requires d < 10
    ensures '0' <= c <= '9' && c as int == '0' as int + d
  {
    '0' + d as char
  }

  /** `fmt.Sprintf("%d", n)` for an unsigned n. */
  function Print(n: nat): (s: string)
    ensures s != [] && forall i :: 0 <= i < |s| ==> '0' <= s[i] <= '9'
  {
    if n < 10 then [Digit(n)] else Print(n / 10) + [Digit(n % 10)]
  }

  function Parse(s: string): nat
    requires forall i :: 0 <= i < |s| ==> '0' <= s[i] <= '9'
  {
    if s == [] then 0
    else Parse(s[..|s| - 1]) * 10 + (s[|s| - 1] as int - '0' as int)
  }

  lemma {:induction false} ParsePrint(n: nat)
    ensures Parse(Print(n)) == n
  {
    if n >= 10 {
      ParsePrint(n / 10);
      assert Print(n)[..|Print(n)| - 1] == Print(n / 10);
    } else {
      assert Print(n)[..0] == [];
    }
  }

  /** The name and space of account `id`. */
  function QueueName(id: nat): string {
    "q-" + Print(id)
  }

  /** A printed number has no leading zero, so it is the usual decimal numeral. */
  lemma {:induction false} NoLeadingZero(n: nat)
    ensures Print(n)[0] == '0' <==> n == 0
  {
    if n >= 10 {
      NoLeadingZero(n / 10);
    }
  }

  /** The name is "q-" and the decimal numeral of the id. */
  lemma QueueNameReadsBack(id: nat)
    ensures "q-" <= QueueName(id) && |QueueName(id)| >= 3
    ensures forall i :: 2 <= i < |QueueName(id)| ==> '0' <= QueueName(id)[i] <= '9'
    ensures Parse(QueueName(id)[2..]) == id && (QueueName(id)[2] == '0' <==> id == 0)
    ensures QueueName(10) == "q-10"
  {
    assert QueueName(id)[2..] == Print(id);
    ParsePrint(id);
    NoLeadingZero(id);
    assert Print(1) == "1" && Print(10) == "10";
  }

  predicate IsQueueName(name: string) {
    "q-" <= name
  }

  /** Different ids have different names. */
  lemma QueueNameInjective(a: nat, b: nat)
    requires QueueName(a) == QueueName(b)
    ensures a == b
  {
    assert QueueName(a)[2..] == Print(a) && QueueName(b)[2..] == Print(b);
    ParsePrint(a);
    ParsePrint(b);
  }
}
