/** The public-handle allocator's pure part: the base handle derived from an
    e-mail address, the candidates probed after it, and what makes a
    candidate the one the allocator returns. The probing loop itself is
    `Auth.AuthService.GenerateUniqueHandle`. */
module Handles {
  import opened Ascii

  /** `email.split('@')[0]`: the text before the first `@`, or the whole
      string when it has none. */
  function LocalPart(email: string): (r: string)
    ensures r <= email
    ensures forall i :: 0 <= i < |r| ==> r[i] != '@'
    ensures |r| < |email| ==> email[|r|] == '@'
    decreases |email|
  {
    if email == [] || email[0] == '@' then [] else [email[0]] + LocalPart(email[1..])
  }

  /** The local part, lower-cased, with every character outside `[a-z0-9]`
      removed. */
  function BaseHandle(email: string): (r: string)
    ensures forall i :: 0 <= i < |r| ==> IsLowerAlnum(r[i])
  {
    KeepLowerAlnum(LowerString(LocalPart(email)))
  }

  /** The k-th handle probed: the base itself, then `base1`, `base2`, ...:
      the base followed by nothing for k = 0 and by the numeral of k otherwise. */
  function Candidate(base: string, k: nat): (r: string)
    ensures base <= r
    ensures r == base <==> k == 0
  {
    if k == 0 then base else base + Decimal(k)
  }

  /** After the base, candidate k > 0 is exactly the decimal numeral of k:
      digits only, spelling k, without a leading zero. */
  lemma CandidateSuffix(base: string, k: nat)
    requires k > 0
    ensures |base| < |Candidate(base, k)|
    ensures Candidate(base, k)[|base|..] == Decimal(k)
    ensures forall i :: |base| <= i < |Candidate(base, k)| ==> '0' <= Candidate(base, k)[i] <= '9'
    ensures DigitsValue(Candidate(base, k)[|base|..]) == k && Candidate(base, k)[|base|] != '0'
  {
    assert Candidate(base, k)[|base|..] == Decimal(k);
  }

  /** Every candidate built from a base handle stays within `[a-z0-9]`. */
  lemma CandidateIsLowerAlnum(base: string, k: nat)
    requires forall i :: 0 <= i < |base| ==> IsLowerAlnum(base[i])
    ensures forall i :: 0 <= i < |Candidate(base, k)| ==> IsLowerAlnum(Candidate(base, k)[i])
  {
  }

  /** `k |-> Candidate(base, k)` is injective, so no candidate is probed twice. */
  lemma {:induction false} CandidateInjective(base: string, i: nat, j: nat)
    requires Candidate(base, i) == Candidate(base, j)
    ensures i == j
  {
    if i != 0 && j != 0 {
      assert Candidate(base, i)[|base|..] == Decimal(i);
      assert Candidate(base, j)[|base|..] == Decimal(j);
      DecimalInjective(i, j);
    }
  }

  /** The set of the first k candidates. */
  function Probed(base: string, k: nat): (r: set<string>)
    ensures forall j :: 0 <= j < k ==> Candidate(base, j) in r
    decreases k
  {
    if k == 0 then {} else Probed(base, k - 1) + {Candidate(base, k - 1)}
  }

  lemma {:induction false} ProbedMembers(base: string, k: nat, h: string)
    requires h in Probed(base, k)
    ensures exists j :: 0 <= j < k && h == Candidate(base, j)
    decreases k
  {
    if h != Candidate(base, k - 1) {
      ProbedMembers(base, k - 1, h);
    }
  }

  /** The first k candidates are k distinct strings. */
  lemma {:induction false} ProbedSize(base: string, k: nat)
    ensures |Probed(base, k)| == k
    decreases k
  {
    if k > 0 {
      ProbedSize(base, k - 1);
      if Candidate(base, k - 1) in Probed(base, k - 1) {
        ProbedMembers(base, k - 1, Candidate(base, k - 1));
        var j :| 0 <= j < k - 1 && Candidate(base, k - 1) == Candidate(base, j);
        CandidateInjective(base, j, k - 1);
        assert false;
      }
    }
  }

  /** The termination argument of the probing loop: when the first k
      candidates are all taken, k is at most the number of taken handles. */
  lemma {:induction false} ProbeCountBound(taken: set<string>, base: string, k: nat)
    requires forall j :: 0 <= j < k ==> Candidate(base, j) in taken
    ensures k <= |taken|
  {
    var probed := Probed(base, k);
    ProbedSize(base, k);
    forall h | h in probed ensures h in taken {
      ProbedMembers(base, k, h);
    }
    assert taken == probed + (taken - probed);
    assert probed !! (taken - probed);
  }

  /** h is the handle the allocator returns when `taken` are in use: the
      first candidate that is not taken. */
  ghost predicate FirstFree(taken: set<string>, base: string, h: string) {
    exists k: nat ::
      && h == Candidate(base, k)
      && h !in taken
      && forall j :: 0 <= j < k ==> Candidate(base, j) in taken
  }

  /** The allocator's result is determined by the taken set and the base. */
  lemma FirstFreeUnique(taken: set<string>, base: string, h1: string, h2: string)
    requires FirstFree(taken, base, h1) && FirstFree(taken, base, h2)
    ensures h1 == h2
  {
    var k1: nat :| h1 == Candidate(base, k1) && h1 !in taken && forall j :: 0 <= j < k1 ==> Candidate(base, j) in taken;
    var k2: nat :| h2 == Candidate(base, k2) && h2 !in taken && forall j :: 0 <= j < k2 ==> Candidate(base, j) in taken;
    assert k1 < k2 ==> Candidate(base, k1) in taken;
    assert k2 < k1 ==> Candidate(base, k2) in taken;
  }

  /** A handle is free iff the allocator returns it unchanged. */
  lemma FirstFreeBase(taken: set<string>, base: string)
    ensures FirstFree(taken, base, base) <==> base !in taken
  {
    if base !in taken {
      assert base == Candidate(base, 0);
    }
  }

  /** The base handle of any address is the filtered, lower-cased text
      before its first `@` (all of it when there is none). */
  lemma BaseHandleIsLocalPart(email: string, i: nat)
    requires i <= |email| && '@' !in email[..i] && (i < |email| ==> email[i] == '@')
    ensures BaseHandle(email) == KeepLowerAlnum(LowerString(email[..i]))
  {
    LocalPartAt(email, i);
  }

  lemma LocalPartAt(email: string, i: nat)
    requires i <= |email| && '@' !in email[..i] && (i < |email| ==> email[i] == '@')
    ensures LocalPart(email) == email[..i]
  {
  }

  /** The local part ends at the first `@`: "a@b.com" gives "a", and
      "!!!@x" gives the empty handle. */
  lemma BaseHandleExamples()
    ensures BaseHandle("a@b.com") == "a"
    ensures BaseHandle("!!!@x") == ""
  {
    assert LocalPart("a@b.com") == "a";
    assert LowerString("a") == "a";
    assert LocalPart("!!!@x") == "!!!";
    assert LowerString("!!!") == "!!!";
  }

  /** The local part is everything before the first `@`. */
  lemma {:induction false} LocalPartBeforeAt(local: string, domain: string)
    requires '@' !in local
    ensures LocalPart(local + "@" + domain) == local
    decreases |local|
  {
    var e := local + "@" + domain;
    if local == [] {
      assert e[0] == '@';
    } else {
      LocalPartBeforeAt(local[1..], domain);
      assert e[0] == local[0] && e[1..] == local[1..] + "@" + domain;
    }
  }

  lemma AliceBase()
    ensures BaseHandle("alice@x.com") == "alice"
  {
    var local := "alice";
    assert '@' !in local;
    LocalPartBeforeAt(local, "x.com");
    assert local + "@" + "x.com" == "alice@x.com";
    LowerStringFixed(local);
    KeepLowerAlnumFixed(local);
  }

  const AliceTaken: set<string> := {"alice", "alice1"}

  /** `alice2` is free and both earlier candidates are taken. */
  lemma SecondCandidateFree()
    ensures FirstFree(AliceTaken, "alice", "alice2")
  {
    assert Decimal(1) == "1" && Decimal(2) == "2";
    assert Candidate("alice", 0) == "alice";
    assert Candidate("alice", 1) == "alice1";
    assert Candidate("alice", 2) == "alice2";
    assert "alice2" != "alice" && "alice2" != "alice1" by {
      assert |"alice2"| != |"alice"| && "alice2"[5] != "alice1"[5];
    }
    assert forall j :: 0 <= j < 2 ==> Candidate("alice", j) in AliceTaken;
  }

  /** No other candidate is the first free one. */
  lemma OnlySecondCandidate(h: string)
    requires FirstFree(AliceTaken, "alice", h)
    ensures h == "alice2"
  {
    var k: nat :| h == Candidate("alice", k) && h !in AliceTaken
      && forall j :: 0 <= j < k ==> Candidate("alice", j) in AliceTaken;
    assert Decimal(1) == "1" && Decimal(2) == "2";
    assert Candidate("alice", 1) == "alice1";
    assert Candidate("alice", 2) == "alice2";
    assert k != 0 && k != 1;
    if k > 2 {
      assert Candidate("alice", 2) in AliceTaken;
      SecondCandidateFree();
      assert false;
    }
  }

  /** With `alice` and `alice1` taken, alice@x.com is given `alice2`. */
  lemma AllocationExample(h: string)
    ensures FirstFree(AliceTaken, BaseHandle("alice@x.com"), h) <==> h == "alice2"
  {
    AliceBase();
    if h == "alice2" {
      SecondCandidateFree();
    }
    if FirstFree(AliceTaken, "alice", h) {
      OnlySecondCandidate(h);
    }
  }
}
