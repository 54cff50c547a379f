/** Reading the cost factor back out of a bcrypt hash to decide whether it must be re-hashed. */
module PasswordHashing {
  import opened JsText

  /** The bcrypt cost factor new hashes are made with. */
  const SaltRounds: int := 12

  /** `getRounds`: the third `$`-separated field parsed as a decimal integer, or 0 when there is none. */
  function GetRounds(hash: string): (rounds: Number)
    ensures Occurrences(hash, '$') < 2 ==> rounds == Integer(0)
  {
    var parts := Split(hash, '$');
    if |parts| < 3 then Integer(0) else ParseInt(parts[2])
  }

  /** `needsRehash`: a cost below the current one. A NaN cost compares false, so it never asks for a re-hash. */
  predicate NeedsRehash(hash: string) {
    match GetRounds(hash)
    case NaN => false
    case Integer(r) => r < SaltRounds
  }

  /** A string with fewer than two `$` has no cost field: it reads as cost 0 and always needs a re-hash. */
  lemma NoCostFieldNeedsRehash(hash: string)
    requires Occurrences(hash, '$') < 2
    ensures GetRounds(hash) == Integer(0) && NeedsRehash(hash)
  {
  }

  /** A hash in the modular crypt form `$<version>$<cost>$<rest>` reads back exactly the value of its cost
      digits, leading zeros included (bcrypt writes `04` to `09`), and needs a re-hash iff that value is below 12. */
  lemma CostIsReadBack(version: string, cost: string, rest: string)
    requires '$' !in version && cost != [] && AllDigits(cost)
    ensures var hash := "$" + version + "$" + cost + "$" + rest;
      GetRounds(hash) == Integer(DigitsValue(cost)) && (NeedsRehash(hash) <==> DigitsValue(cost) < SaltRounds)
  {
    var hash := "$" + version + "$" + cost + "$" + rest;
    assert '$' !in cost by {
      assert forall i :: 0 <= i < |cost| ==> IsDigit(cost[i]);
    }
    assert hash == [] + ['$'] + (version + ['$'] + (cost + ['$'] + rest));
    SplitAtFirst([], '$', version + ['$'] + (cost + ['$'] + rest));
    SplitAtFirst(version, '$', cost + ['$'] + rest);
    SplitAtFirst(cost, '$', rest);
    var parts := Split(hash, '$');
    assert parts == [[], version, cost] + Split(rest, '$');
    assert parts[2] == cost;
    ParseIntReadsUnsigned([], cost, []);
    assert [] + cost + [] == cost;
  }

  /** A cost field that does not start like a number parses to NaN, and NaN never asks for a re-hash. */
  lemma NonNumericCostNeedsNoRehash(version: string, field: string, rest: string)
    requires '$' !in version && '$' !in field
    requires field == [] || (!IsDigit(field[0]) && !IsWhiteSpace(field[0]) && field[0] != '-' && field[0] != '+')
    ensures var hash := "$" + version + "$" + field + "$" + rest;
      GetRounds(hash) == NaN && !NeedsRehash(hash)
  {
    var hash := "$" + version + "$" + field + "$" + rest;
    assert hash == [] + ['$'] + (version + ['$'] + (field + ['$'] + rest));
    SplitAtFirst([], '$', version + ['$'] + (field + ['$'] + rest));
    SplitAtFirst(version, '$', field + ['$'] + rest);
    SplitAtFirst(field, '$', rest);
    assert Split(hash, '$')[2] == field;
    assert TrimStart(field) == field;
    assert LeadingDigits(field) == [];
  }

  lemma CurrentCostNeedsNoRehash()
    ensures !NeedsRehash("$2b$12$salt")
  {
    assert DigitsValue("12") == 12 by {
      assert "12"[..1] == "1";
    }
    CostIsReadBack("2b", "12", "salt");
    assert "$" + "2b" + "$" + "12" + "$" + "salt" == "$2b$12$salt";
  }

  lemma LowerCostNeedsRehash()
    ensures NeedsRehash("$2b$10$salt")
  {
    assert DigitsValue("10") == 10 by {
      assert "10"[..1] == "1";
    }
    CostIsReadBack("2b", "10", "salt");
    assert "$" + "2b" + "$" + "10" + "$" + "salt" == "$2b$10$salt";
  }

  /** The lowest bcrypt cost, written with its leading zero. */
  lemma MinimumCostNeedsRehash()
    ensures NeedsRehash("$2b$04$salt")
  {
    assert DigitsValue("04") == 4 by {
      assert "04"[..1] == "0";
    }
    CostIsReadBack("2b", "04", "salt");
    assert "$" + "2b" + "$" + "04" + "$" + "salt" == "$2b$04$salt";
  }
}
