/** The proof object that a client checks: it remembers the root hash it computed and whether that was confirmed. */
module ProofObject {
  import opened Bytes
  import opened Tree
  import opened RangeProof
  import opened ProofSoundness
  import opened ProofVerify

  class CheckedProof {
    const proof: Proof
    var rootHash: Option<Blob>
    var rootVerified: bool
    var treeEnd: bool

    /** What is remembered is what the proof computes. */
    ghost predicate Valid()
      reads this
    {
      (rootHash.Some? ==> ComputeRootHash(proof) == Some((rootHash.value, treeEnd))) && (rootVerified ==> rootHash.Some?)
    }

    constructor (proof: Proof)
      ensures Valid() && this.proof == proof && !rootVerified
    {
      this.proof := proof;
      rootHash, rootVerified, treeEnd := None, false, false;
    }

    /** `computeRootHash`, which memoises its result. */
    method RememberRootHash() returns (hash: Option<Blob>)
      requires Valid()
      modifies this
      ensures Valid() && rootVerified == old(rootVerified)
      ensures if ComputeRootHash(proof).Some? then hash == Some(ComputeRootHash(proof).value.0) && rootHash == hash
              else hash == None && rootHash == old(rootHash)
    {
      if |proof.leaves| == 0 || |proof.innerNodes| + 1 != |proof.leaves| { return None; }
      var o := RunComputeHash(proof.leftPath, true, proof.leaves, proof.innerNodes);
      if o.Mismatch? || !o.done { return None; }
      rootHash, treeEnd := Some(o.hash), o.treeEnd;
      hash := rootHash;
    }

    /** Accepts exactly the root hash that the proof computes, whatever was asked before. */
    method Verify(root: Blob) returns (ok: bool)
      requires Valid()
      modifies this
      ensures Valid() && (rootVerified <==> old(rootVerified) || ok)
      ensures ok <==> ComputeRootHash(proof).Some? && ComputeRootHash(proof).value.0 == root
    {
      var hash := rootHash;
      if hash.None? { hash := RememberRootHash(); }
      if hash.None? || hash.value != root { return false; }
      rootVerified := true;
      ok := true;
    }

    /** Refuses everything before `Verify`; afterwards accepts exactly the pairs of the tree whose key is in the proof. */
    method CheckItem(key: Key, value: Value) returns (ok: bool)
      requires Valid()
      ensures ok <==> rootVerified && VerifyItem(proof.leaves, key, value)
      ensures forall t :: Wf(t) && WellFormedProof(proof) && rootVerified && rootHash == Some(Hash(t)) ==>
                (ok <==> (exists i :: 0 <= i < |proof.leaves| && proof.leaves[i].key == key) &&
                         key in Content(t) && Content(t)[key] == value)
    {
      forall t | Wf(t) && WellFormedProof(proof) && rootVerified && rootHash == Some(Hash(t))
        ensures VerifyItem(proof.leaves, key, value) <==>
                (exists i :: 0 <= i < |proof.leaves| && proof.leaves[i].key == key) && key in Content(t) && Content(t)[key] == value
      {
        VerifyItemExact(proof, t, treeEnd, key, value);
      }
      if !rootVerified { return false; }
      var leaves := proof.leaves;
      var i, j := 0, |leaves|;
      while i < j
        invariant 0 <= i <= j <= |leaves|
        invariant Search(leaves, key, i, j) == Search(leaves, key, 0, |leaves|)
      {
        var h := (i + j) / 2;
        if !Le(key, leaves[h].key) { i := h + 1; } else { j := h; }
      }
      ok := i < |leaves| && leaves[i].key == key && leaves[i].valueHash == ValueSum(value);
    }

    /** Refuses everything before `Verify`; afterwards accepts exactly the absent keys that the proof spans. */
    method CheckAbsence(key: Key) returns (ok: bool)
      requires Valid()
      ensures rootVerified ==> proof.leaves != []
      ensures ok <==> rootVerified && VerifyAbsence(proof, treeEnd, key)
      ensures forall t :: Wf(t) && WellFormedProof(proof) && rootVerified && rootHash == Some(Hash(t)) ==>
                (ok <==> key !in Content(t) && Spans(proof, treeEnd, key))
    {
      if !rootVerified { return false; }
      assert proof.leaves != [];
      forall t | Wf(t) && WellFormedProof(proof) && rootHash == Some(Hash(t))
        ensures VerifyAbsence(proof, treeEnd, key) <==> key !in Content(t) && Spans(proof, treeEnd, key)
      {
        VerifyAbsenceExact(proof, t, treeEnd, key);
      }
      var leaves := proof.leaves;
      if Lt(key, leaves[0].key) { return IsLeftmost(proof.leftPath); }
      if key == leaves[0].key { return false; }
      if |proof.leftPath| == 0 { return true; }
      if IsRightmost(proof.leftPath) { return true; }
      var i := 1;
      while i < |leaves|
        invariant 1 <= i <= |leaves|
        invariant Scan(leaves, key, i) == Scan(leaves, key, 1)
      {
        if Lt(key, leaves[i].key) { return true; }
        if key == leaves[i].key { return false; }
        i := i + 1;
      }
      ok := treeEnd;
    }
  }
}
