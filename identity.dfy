/**
 * How the controller names the lights it discovers: each comma-separated host
 * gets a 1-based ordinal, a label built from the host without its dots and
 * that ordinal, and an address that is the label's hash reduced modulo 10^8,
 * written in decimal. The hash (MD5 of the UTF-8 label, read as an integer)
 * is a parameter `hash`.
 */
module Identity {
  import opened Strings

  /** Addresses are hash values reduced modulo 10^8. */
  const MODULUS: nat := 100000000

  /** The node name of the host at `ordinal`: "t_" + host without dots + "_" + ordinal. */
  function Label(host: string, ordinal: nat): (l: string)
    ensures |l| >= 3 + |NatToString(ordinal)| && l[..2] == "t_"
    ensures '.' !in l
    ensures l[|l| - |NatToString(ordinal)| - 1..] == "_" + NatToString(ordinal)
  {
    "t" + "_" + RemoveAll(host, '.') + "_" + NatToString(ordinal)
  }

  /** The registry address of the host at `ordinal`: the decimal form of hash(label) mod 10^8. */
  function Address(hash: string -> nat, host: string, ordinal: nat): (id: string)
    ensures IsDecimal(id) && 0 < |id| <= 8
    ensures StringToNat(id) == hash(Label(host, ordinal)) % MODULUS
    ensures StringToNat(id) < MODULUS
    ensures id[0] == '0' ==> id == "0"
  {
    var n := hash(Label(host, ordinal)) % MODULUS;
    StringToNatOfNatToString(n);
    assert Pow10(8) == MODULUS;
    NatToStringLength(n, 8);
    NatToString(n)
  }

  /** Two addresses are the same exactly when the two labels hash to the same value mod 10^8. */
  lemma AddressesAgree(hash: string -> nat, h1: string, o1: nat, h2: string, o2: nat)
    ensures Address(hash, h1, o1) == Address(hash, h2, o2)
        <==> hash(Label(h1, o1)) % MODULUS == hash(Label(h2, o2)) % MODULUS
  {
    var m := hash(Label(h1, o1)) % MODULUS;
    var n := hash(Label(h2, o2)) % MODULUS;
    if NatToString(m) == NatToString(n) {
      NatToStringInjective(m, n);
    }
  }

  /** Length of the run of digits at the end of `s`. */
  function TrailingDigits(s: string): (n: nat)
    ensures n <= |s|
  {
    if s == [] || !IsDigit(s[|s| - 1]) then 0 else 1 + TrailingDigits(s[..|s| - 1])
  }

  /** In `x + "_" + d` with `d` a numeral, the trailing digits are exactly `d`. */
  lemma {:induction false} TrailingDigitsAfterUnderscore(x: string, d: string)
    requires IsDecimal(d)
    ensures TrailingDigits(x + "_" + d) == |d|
    decreases |d|
  {
    var s := x + "_" + d;
    if d == [] {
      assert s[|s| - 1] == '_';
    } else {
      var d' := d[..|d| - 1];
      assert s[..|s| - 1] == x + "_" + d';
      TrailingDigitsAfterUnderscore(x, d');
    }
  }

  /** Two strings ending in "_" and a numeral are equal only when the parts before and after agree. */
  lemma SplitAtLastUnderscore(x: string, d: string, y: string, e: string)
    requires IsDecimal(d) && IsDecimal(e)
    requires x + "_" + d == y + "_" + e
    ensures x == y && d == e
  {
    var s := x + "_" + d;
    TrailingDigitsAfterUnderscore(x, d);
    TrailingDigitsAfterUnderscore(y, e);
    assert d == s[|s| - |d|..];
    assert e == s[|s| - |e|..];
    assert x == s[..|x|];
    assert y == s[..|y|];
  }

  /**
   * Labels are injective in the dot-free host and the ordinal: the digits
   * after the last underscore are the ordinal, everything between "t_" and
   * that underscore is the host without its dots.
   */
  lemma LabelInjective(h1: string, o1: nat, h2: string, o2: nat)
    requires Label(h1, o1) == Label(h2, o2)
    ensures o1 == o2 && RemoveAll(h1, '.') == RemoveAll(h2, '.')
  {
    var a1, a2 := RemoveAll(h1, '.'), RemoveAll(h2, '.');
    assert "t" + "_" + a1 + "_" + NatToString(o1) == ("t_" + a1) + "_" + NatToString(o1);
    assert "t" + "_" + a2 + "_" + NatToString(o2) == ("t_" + a2) + "_" + NatToString(o2);
    SplitAtLastUnderscore("t_" + a1, NatToString(o1), "t_" + a2, NatToString(o2));
    NatToStringInjective(o1, o2);
    assert a1 == ("t_" + a1)[2..];
    assert a2 == ("t_" + a2)[2..];
  }

  /** Within one host list the labels of different ordinals differ, whatever the hosts. */
  lemma LabelsOfOrdinalsDiffer(h1: string, o1: nat, h2: string, o2: nat)
    requires o1 != o2
    ensures Label(h1, o1) != Label(h2, o2)
  {
    if Label(h1, o1) == Label(h2, o2) {
      LabelInjective(h1, o1, h2, o2);
    }
  }

  /**
   * At a fixed ordinal the label changes exactly when the dot-free host
   * changes, so reordering hosts that differ in more than their dots
   * renames them.
   */
  lemma LabelAtOrdinal(h1: string, h2: string, ordinal: nat)
    ensures Label(h1, ordinal) == Label(h2, ordinal) <==> RemoveAll(h1, '.') == RemoveAll(h2, '.')
  {
    if Label(h1, ordinal) == Label(h2, ordinal) {
      LabelInjective(h1, ordinal, h2, ordinal);
    }
  }

  // ---------------------------------------------------------------------------
  // Discovery plan

  /** A light node to add: its registry address, its name and the host it talks to. */
  datatype Registration = Registration(address: string, name: string, host: string)

  /** The addresses of a list of registrations, in order. */
  function Addresses(rs: seq<Registration>): (ids: seq<string>)
    ensures |ids| == |rs|
    ensures forall i :: 0 <= i < |rs| ==> ids[i] == rs[i].address
  {
    if rs == [] then [] else Addresses(rs[..|rs| - 1]) + [rs[|rs| - 1].address]
  }

  lemma AddressesAppend(rs: seq<Registration>, r: Registration)
    ensures Addresses(rs + [r]) == Addresses(rs) + [r.address]
  {
    assert (rs + [r])[..|rs|] == rs;
  }

  /** The registration the host at 1-based `ordinal` would get. */
  function Entry(hash: string -> nat, host: string, ordinal: nat): (r: Registration)
    ensures r.address == Address(hash, host, ordinal) && r.host == host
    ensures r.name == Label(host, ordinal)
  {
    Registration(Address(hash, host, ordinal), Label(host, ordinal), host)
  }

  /** The registrations the hosts would get, one per host, in order. */
  function Entries(hash: string -> nat, hosts: seq<string>): (es: seq<Registration>)
    ensures |es| == |hosts|
    ensures forall k :: 0 <= k < |hosts| ==> es[k] == Entry(hash, hosts[k], k + 1)
  {
    if hosts == [] then [] else Entries(hash, hosts[..|hosts| - 1]) + [Entry(hash, hosts[|hosts| - 1], |hosts|)]
  }

  /**
   * The lights discovery adds for the first `n` of `entries` (the
   * registrations of the configured hosts, in order) when the registry
   * already holds `known`: an entry is added only when its address is
   * neither known nor taken by an earlier entry.
   */
  function Plan(entries: seq<Registration>, known: set<string>, n: nat): (rs: seq<Registration>)
    requires n <= |entries|
    ensures |rs| <= n
  {
    if n == 0 then []
    else
      var earlier := Plan(entries, known, n - 1);
      var r := entries[n - 1];
      if r.address in known || r.address in Addresses(earlier) then earlier
      else earlier + [r]
  }

  /** One more entry: the plan grows by that entry exactly when its address is neither known nor planned already. */
  lemma PlanNext(entries: seq<Registration>, known: set<string>, i: nat, r: Registration)
    requires i < |entries| && entries[i] == r
    ensures Plan(entries, known, i + 1)
         == if r.address in known || r.address in Addresses(Plan(entries, known, i)) then Plan(entries, known, i)
            else Plan(entries, known, i) + [r]
  {
  }

  /** Discovery adds only new addresses, and never the same address twice. */
  lemma {:induction false} PlanFresh(entries: seq<Registration>, known: set<string>, n: nat)
    requires n <= |entries|
    ensures forall i :: 0 <= i < |Plan(entries, known, n)| ==> Plan(entries, known, n)[i].address !in known
    ensures forall i, j :: 0 <= i < j < |Plan(entries, known, n)| ==>
              Plan(entries, known, n)[i].address != Plan(entries, known, n)[j].address
  {
    if n != 0 {
      PlanFresh(entries, known, n - 1);
      var earlier := Plan(entries, known, n - 1);
      var r := entries[n - 1];
      if !(r.address in known || r.address in Addresses(earlier)) {
        forall i | 0 <= i < |earlier| ensures earlier[i].address != r.address {
          assert Addresses(earlier)[i] == earlier[i].address;
        }
        var rs := earlier + [r];
        assert Plan(entries, known, n) == rs;
        forall i | 0 <= i < |rs| ensures rs[i].address !in known {
          if i < |earlier| {
            assert rs[i] == earlier[i];
          }
        }
        forall i, j | 0 <= i < j < |rs| ensures rs[i].address != rs[j].address {
          assert rs[i] == earlier[i];
          if j < |earlier| {
            assert rs[j] == earlier[j];
          }
        }
      }
    }
  }

  /** Every registration of the plan is one of the first n entries. */
  lemma {:induction false} PlanEntries(entries: seq<Registration>, known: set<string>, n: nat, i: nat)
    requires n <= |entries| && i < |Plan(entries, known, n)|
    ensures exists k :: 0 <= k < n && Plan(entries, known, n)[i] == entries[k]
  {
    assert n != 0;
    var earlier := Plan(entries, known, n - 1);
    if i < |earlier| {
      PlanEntries(entries, known, n - 1, i);
      var k :| 0 <= k < n - 1 && earlier[i] == entries[k];
      assert Plan(entries, known, n)[i] == earlier[i];
    } else {
      assert Plan(entries, known, n)[i] == entries[n - 1];
    }
  }

  /** The address of entry n - 1 is registered once the plan for n entries is carried out. */
  lemma PlanCoversLast(entries: seq<Registration>, known: set<string>, n: nat)
    requires 1 <= n <= |entries|
    ensures entries[n - 1].address in known || entries[n - 1].address in Addresses(Plan(entries, known, n))
  {
    AddressesAppend(Plan(entries, known, n - 1), entries[n - 1]);
  }

  /** Registered addresses stay registered when the plan goes on to the next entry. */
  lemma PlanKeeps(entries: seq<Registration>, known: set<string>, n: nat, id: string)
    requires 1 <= n <= |entries|
    requires id in Addresses(Plan(entries, known, n - 1))
    ensures id in Addresses(Plan(entries, known, n))
  {
    AddressesAppend(Plan(entries, known, n - 1), entries[n - 1]);
  }

  /** After the plan for n entries is carried out, the address of each of them is in the registry. */
  lemma {:induction false} PlanCovers(entries: seq<Registration>, known: set<string>, n: nat, k: nat)
    requires k < n <= |entries|
    ensures entries[k].address in known || entries[k].address in Addresses(Plan(entries, known, n))
  {
    if k == n - 1 {
      PlanCoversLast(entries, known, n);
    } else {
      PlanCovers(entries, known, n - 1, k);
      if entries[k].address !in known {
        PlanKeeps(entries, known, n, entries[k].address);
      }
    }
  }

  /** When every address is already registered, discovery adds nothing. */
  lemma {:induction false} PlanIdle(entries: seq<Registration>, known: set<string>, n: nat)
    requires n <= |entries|
    requires forall k :: 0 <= k < n ==> entries[k].address in known
    ensures Plan(entries, known, n) == []
  {
    if n != 0 {
      PlanIdle(entries, known, n - 1);
      assert entries[n - 1].address in known;
    }
  }

  /** Discovery is idempotent: run again on the same entries after its own additions, it adds nothing. */
  lemma PlanTwice(entries: seq<Registration>, known: set<string>)
    ensures Plan(entries, known + set id | id in Addresses(Plan(entries, known, |entries|)), |entries|) == []
  {
    var added := set id | id in Addresses(Plan(entries, known, |entries|));
    forall k | 0 <= k < |entries| ensures entries[k].address in known + added {
      PlanCovers(entries, known, |entries|, k);
    }
    PlanIdle(entries, known + added, |entries|);
  }

  /**
   * When the addresses of the entries are pairwise distinct and none is
   * known yet, discovery adds every one of them, in order.
   */
  lemma {:induction false} PlanOnePerHost(entries: seq<Registration>, known: set<string>, n: nat)
    requires n <= |entries|
    requires forall k :: 0 <= k < n ==> entries[k].address !in known
    requires forall j, k :: 0 <= j < k < n ==> entries[j].address != entries[k].address
    ensures Plan(entries, known, n) == entries[..n]
  {
    if n != 0 {
      PlanOnePerHost(entries, known, n - 1);
      var earlier := Plan(entries, known, n - 1);
      forall j | 0 <= j < |earlier| ensures Addresses(earlier)[j] != entries[n - 1].address {
        assert earlier[j] == entries[j];
      }
      assert entries[..n] == entries[..n - 1] + [entries[n - 1]];
    }
  }
}
