/** The exciton Hamiltonian container: a partition of localized orbitals into occupied and
    virtual ones, and a growing list of terms over orbital modes. */
module Exciton {
  import opened Wrappers
  import opened BitArith

  /** The distinct indices a tuple lists. */
  function Elements(s: seq<int>): set<int> {
    set i | i in s
  }

  /** The distinct indices of a concatenation are those of either part. */
  lemma ElementsConcat(s: seq<int>, t: seq<int>)
    ensures Elements(s + t) == Elements(s) + Elements(t)
  {
  }

  /** Two tuples share an index exactly when their index sets meet. */
  lemma SharedIndex(s: seq<int>, t: seq<int>)
    ensures Elements(s) * Elements(t) != {} <==> exists i :: i in s && i in t
  {
    var both := Elements(s) * Elements(t);
    if exists i :: i in s && i in t {
      var i :| i in s && i in t;
      assert i in both;
    } else {
      forall i
        ensures i !in both
      {
        assert i in both ==> i in s && i in t;
      }
      assert both == {};
    }
  }

  /** The occupied and virtual orbitals of a localized basis. */
  datatype OrbitalPartition = OrbitalPartition(occupied: seq<int>, virtual: seq<int>)
  {
    /** `validate()`: the two tuples must not share an index. Passing it makes the distinct
        indices of occupied + virtual the disjoint union of the two. */
    function Validate(): (r: Outcome<Error>)
      ensures r.Fail? <==> exists i :: i in occupied && i in virtual
      ensures r.Fail? ==> r.error == PartitionError
      ensures r.Pass? ==>
        |Elements(occupied + virtual)| == |Elements(occupied)| + |Elements(virtual)|
    {
      var overlap := Elements(occupied) * Elements(virtual);
      ElementsConcat(occupied, virtual);
      SharedIndex(occupied, virtual);
      if overlap != {} then Fail(PartitionError) else Pass
    }
  }

  /** One term of the Hamiltonian: its label, a coefficient and the modes it acts on. */
  datatype ExcitonTerm = ExcitonTerm(termLabel: string, coefficient: real, modes: seq<int>)

  /** Every mode of the term names one of the n orbitals. */
  predicate ModesInRange(term: ExcitonTerm, n: int) {
    forall m :: m in term.modes ==> 0 <= m < n
  }

  /** How many terms from the front of the list have all their modes in range: the ones
      `extend_terms` adds before it raises. */
  function AcceptedCount(terms: seq<ExcitonTerm>, n: int): (c: nat)
    ensures c <= |terms|
  {
    if terms == [] || !ModesInRange(terms[0], n) then 0
    else 1 + AcceptedCount(terms[1..], n)
  }

  /** The accepted terms all pass the range check, and the one after them (if any) fails it. */
  lemma {:induction false} AcceptedCountFacts(terms: seq<ExcitonTerm>, n: int)
    ensures forall i :: 0 <= i < AcceptedCount(terms, n) ==> ModesInRange(terms[i], n)
    ensures AcceptedCount(terms, n) < |terms| ==>
      !ModesInRange(terms[AcceptedCount(terms, n)], n)
  {
    if terms != [] && ModesInRange(terms[0], n) {
      AcceptedCountFacts(terms[1..], n);
      forall i | 0 <= i < AcceptedCount(terms, n)
        ensures ModesInRange(terms[i], n)
      {
        if i > 0 {
          assert terms[i] == terms[1..][i - 1];
        }
      }
    }
  }

  /** The accepted count is determined by those two facts. */
  lemma AcceptedCountUnique(terms: seq<ExcitonTerm>, n: int, k: nat)
    requires k <= |terms|
    requires forall i :: 0 <= i < k ==> ModesInRange(terms[i], n)
    requires k < |terms| ==> !ModesInRange(terms[k], n)
    ensures AcceptedCount(terms, n) == k
  {
    AcceptedCountFacts(terms, n);
  }

  /** An exciton Hamiltonian over n_orbitals localized orbitals. */
  class ExcitonModel {
    const nOrbitals: int
    const partition: OrbitalPartition
    var terms: seq<ExcitonTerm>

    constructor (nOrbitals: int, partition: OrbitalPartition, terms: seq<ExcitonTerm> := [])
      ensures this.nOrbitals == nOrbitals && this.partition == partition
      ensures this.terms == terms
    {
      this.nOrbitals := nOrbitals;
      this.partition := partition;
      this.terms := terms;
    }

    /** `add_term(term)`: a mode outside [0, n_orbitals) raises and adds nothing; otherwise
        the term goes at the end. */
    method AddTerm(term: ExcitonTerm) returns (r: Outcome<Error>)
      modifies this
      ensures r.Pass? <==> ModesInRange(term, nOrbitals)
      ensures r.Fail? ==> r.error == RangeError && terms == old(terms)
      ensures r.Pass? ==> terms == old(terms) + [term]
    {
      if exists m :: m in term.modes && (m < 0 || m >= nOrbitals) {
        return Fail(RangeError);
      }
      terms := terms + [term];
      return Pass;
    }

    /** `extend_terms(terms)`: add the terms in order, stopping at the first that raises;
        the ones added before it stay. */
    method ExtendTerms(newTerms: seq<ExcitonTerm>) returns (r: Outcome<Error>)
      modifies this
      ensures r.Pass? <==> forall i :: 0 <= i < |newTerms| ==> ModesInRange(newTerms[i], nOrbitals)
      ensures r.Fail? ==> r.error == RangeError
      ensures terms == old(terms) + newTerms[..AcceptedCount(newTerms, nOrbitals)]
    {
      AcceptedCountFacts(newTerms, nOrbitals);
      var i := 0;
      while i < |newTerms|
        invariant 0 <= i <= |newTerms|
        invariant forall j :: 0 <= j < i ==> ModesInRange(newTerms[j], nOrbitals)
        invariant terms == old(terms) + newTerms[..i]
      {
        var added := AddTerm(newTerms[i]);
        if added.Fail? {
          AcceptedCountUnique(newTerms, nOrbitals, i);
          return added;
        }
        assert newTerms[..i + 1] == newTerms[..i] + [newTerms[i]];
        i := i + 1;
      }
      AcceptedCountUnique(newTerms, nOrbitals, i);
      assert newTerms[..i] == newTerms;
      return Pass;
    }

    /** `validate()`: the partition's own check, then the distinct indices of
        occupied + virtual must number exactly n_orbitals. */
    function Validate(): (r: Outcome<Error>)
      ensures r.Pass? <==>
        && (forall i :: i in partition.occupied ==> i !in partition.virtual)
        && |Elements(partition.occupied)| + |Elements(partition.virtual)| == nOrbitals
      ensures r.Fail? ==> r.error == PartitionError
    {
      var check := partition.Validate();
      if check.Fail? then check
      else if |Elements(partition.occupied + partition.virtual)| != nOrbitals then
        Fail(PartitionError)
      else Pass
    }
  }

  /** When every index lies in [0, n_orbitals), a model that validates covers every orbital
      exactly once: each is occupied or virtual, and none is both. */
  lemma ValidatedCovers(m: ExcitonModel)
    requires m.Validate().Pass?
    requires forall i :: i in m.partition.occupied + m.partition.virtual ==> 0 <= i < m.nOrbitals
    ensures m.nOrbitals >= 0
    ensures Elements(m.partition.occupied) + Elements(m.partition.virtual) == Domain(m.nOrbitals)
    ensures Elements(m.partition.occupied) * Elements(m.partition.virtual) == {}
  {
    var all := m.partition.occupied + m.partition.virtual;
    ElementsConcat(m.partition.occupied, m.partition.virtual);
    assert m.partition.Validate().Pass?;
    FullDomain(Elements(all), m.nOrbitals);
  }

  /** `validate()` does not check the range of the indices: one orbital listed as index 5
      passes. */
  lemma ValidateIgnoresRange()
    ensures var p := OrbitalPartition([5], []);
      && p.Validate().Pass?
      && |Elements(p.occupied + p.virtual)| == 1
      && 5 !in Domain(1)
  {
    var p := OrbitalPartition([5], []);
    assert Elements(p.occupied + p.virtual) == {5} by {
      assert p.occupied + p.virtual == [5];
    }
  }
}
