/** Which certificate may act for which owner name. Names are lower-cased as ASCII. */
module Identity {
  import opened Wrappers

  /** The part of a common name before its first dot. */
  function HostLabel(commonName: string): (host: string)
    ensures '.' !in host && host <= commonName
    ensures host == commonName || commonName[|host|] == '.'
  {
    if commonName == [] || commonName[0] == '.' then []
    else
      var rest := HostLabel(commonName[1..]);
      assert commonName == [commonName[0]] + commonName[1..];
      [commonName[0]] + rest
  }

  function LowerChar(c: char): char {
    if 'A' <= c <= 'Z' then (c as int + 32) as char else c
  }

  function Lower(s: string): (t: string)
    ensures |t| == |s| && forall i :: 0 <= i < |s| ==> t[i] == LowerChar(s[i])
  {
    seq(|s|, i requires 0 <= i < |s| => LowerChar(s[i]))
  }

  /** The owner check: the certificate's host label, not the owner name, is normalised. */
  predicate OwnerMatches(commonName: Option<string>, owner: string) {
    commonName.Some? && Lower(HostLabel(commonName.value)) == Lower(owner)
  }

  /** Equal, or the upper and lower case of one ASCII letter. */
  predicate SameLetter(a: char, b: char) {
    a == b || ('A' <= a <= 'Z' && b as int == a as int + 32) || ('A' <= b <= 'Z' && a as int == b as int + 32)
  }

  /** A certificate matches exactly the owners that are its host label letter by letter, up to case; a
      client without a common name matches none. */
  lemma OwnerMatchesIff(commonName: string, owner: string)
    ensures OwnerMatches(Some(commonName), owner) <==>
              && |owner| == |HostLabel(commonName)|
              && forall i :: 0 <= i < |owner| ==> SameLetter(HostLabel(commonName)[i], owner[i])
    ensures !OwnerMatches(None, owner)
  {
    var host := HostLabel(commonName);
    if OwnerMatches(Some(commonName), owner) {
      forall i | 0 <= i < |owner|
        ensures SameLetter(host[i], owner[i])
      {
        assert Lower(host)[i] == Lower(owner)[i];
      }
    }
    if |owner| == |host| && forall i :: 0 <= i < |owner| ==> SameLetter(host[i], owner[i]) {
      assert Lower(host) == Lower(owner);
    }
  }

  /** Only an owner name without a dot matches any certificate: nothing can be stored for another. */
  lemma OwnerIsBareLabel(commonName: Option<string>, owner: string)
    requires OwnerMatches(commonName, owner)
    ensures '.' !in owner
  {
    var host := HostLabel(commonName.value);
    forall i | 0 <= i < |owner|
      ensures owner[i] != '.'
    {
      assert LowerChar(host[i]) == Lower(owner)[i];
      assert host[i] in host;
    }
  }

  /** A name without a dot is matched by its own certificate, and the owners one certificate matches
      differ at most in capitalisation. */
  lemma OwnersOfOneCertificate(commonName: Option<string>, owner: string, other: string)
    requires OwnerMatches(commonName, owner)
    ensures OwnerMatches(commonName, other) <==> Lower(owner) == Lower(other)
    ensures OwnerMatches(Some(owner), owner)
  {
    OwnerIsBareLabel(commonName, owner);
    assert HostLabel(owner) == owner;
  }

  /** The bootstrap takes for this host the listed name whose label is that of the certificate: it cuts
      both sides at the first dot. It can store under that name exactly if the name has no dot, because
      the owner check of the peers does not cut it. */
  lemma OwnHostMatchesIffNoDot(commonName: string, name: string)
    requires HostLabel(name) == HostLabel(commonName)
    ensures OwnerMatches(Some(commonName), name) <==> '.' !in name
  {
    if OwnerMatches(Some(commonName), name) {
      OwnerIsBareLabel(Some(commonName), name);
    }
    if '.' !in name {
      assert HostLabel(name) == name;
    }
  }
}
