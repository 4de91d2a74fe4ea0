/** Configuration values as the runner sees them: PHP arrays, which are
    ordered maps from keys to scalars or nested arrays. */
module Values {

  datatype Option<+T> = None | Some(value: T)

  datatype Result<+T, +E> = Ok(value: T) | Err(error: E)

  /** A PHP value: `null`, a scalar (held as its string form) or an array,
      an ordered association list whose order is the array's iteration
      order. */
  datatype Value = Null | Scalar(text: string) | Arr(entries: seq<(string, Value)>)

  /** The entries of an array; a whole configuration is one of these. */
  type Entries = seq<(string, Value)>

  /** The keys of an array, in iteration order. */
  function Keys(es: Entries): (ks: seq<string>)
    ensures |ks| == |es|
    ensures forall i :: 0 <= i < |es| ==> ks[i] == es[i].0
  {
    seq(|es|, i requires 0 <= i < |es| => es[i].0)
  }

  /** The values of an array, in iteration order. */
  function Vals(es: Entries): (vs: seq<Value>)
    ensures |vs| == |es|
    ensures forall i :: 0 <= i < |es| ==> vs[i] == es[i].1
  {
    seq(|es|, i requires 0 <= i < |es| => es[i].1)
  }

  /** A PHP array never holds a key twice. */
  predicate UniqueKeys(es: Entries) {
    forall i, j :: 0 <= i < j < |es| ==> es[i].0 != es[j].0
  }

  /** Unique keys at every level of nesting. */
  predicate WellFormed(v: Value)
    decreases v
  {
    match v
    case Null => true
    case Scalar(_) => true
    case Arr(es) =>
      UniqueKeys(es) &&
      forall i :: 0 <= i < |es| ==> WellFormed(es[i].1)
  }

  /** Position of the first occurrence of k in ks. */
  function IndexOf(ks: seq<string>, k: string): (r: Option<nat>)
    ensures r.None? <==> k !in ks
    ensures r.Some? ==> r.value < |ks| && ks[r.value] == k && k !in ks[..r.value]
  {
    if ks == [] then None
    else if ks[0] == k then Some(0)
    else
      match IndexOf(ks[1..], k)
      case None => None
      case Some(j) =>
        assert ks[1..][..j] == ks[1..j + 1];
        Some(j + 1)
  }

  /** The first position of a key is the only position where it is and
      before which it is not. */
  lemma IndexOfUnique(ks: seq<string>, k: string, j: nat)
    requires j < |ks| && ks[j] == k && k !in ks[..j]
    ensures IndexOf(ks, k) == Some(j)
  {
  }

  /** `$a[$k]`, or None when the key is absent. */
  function Get(es: Entries, k: string): Option<Value> {
    match IndexOf(Keys(es), k)
    case None => None
    case Some(i) => Some(es[i].1)
  }

  /** `$a[$k] = $v`: replaces the value in place when the key is present,
      appends the entry otherwise. */
  function Put(es: Entries, k: string, v: Value): Entries {
    match IndexOf(Keys(es), k)
    case Some(i) => es[i := (k, v)]
    case None => es + [(k, v)]
  }

  /** An assignment: the key then holds the value, every other key keeps
      its value, a new key goes last, keys stay unique, and no entry but
      the written one is new. */
  lemma PutSpec(es: Entries, k: string, v: Value)
    ensures Get(Put(es, k, v), k) == Some(v)
    ensures forall k' :: k' != k ==> Get(Put(es, k, v), k') == Get(es, k')
    ensures Keys(Put(es, k, v)) == if k in Keys(es) then Keys(es) else Keys(es) + [k]
    ensures UniqueKeys(es) ==> UniqueKeys(Put(es, k, v))
    ensures forall i :: 0 <= i < |Put(es, k, v)| ==> Put(es, k, v)[i] == (k, v) || Put(es, k, v)[i] in es
  {
    match IndexOf(Keys(es), k)
    case Some(i) =>
      assert Keys(es[i := (k, v)]) == Keys(es);
    case None =>
      AppendKeepsLookups(es, k, v);
  }

  /** Appending an absent key leaves every other key's lookup unchanged. */
  lemma AppendKeepsLookups(es: Entries, k: string, v: Value)
    requires k !in Keys(es)
    ensures Keys(es + [(k, v)]) == Keys(es) + [k]
    ensures Get(es + [(k, v)], k) == Some(v)
    ensures forall k' :: k' != k ==> Get(es + [(k, v)], k') == Get(es, k')
  {
    var r := es + [(k, v)];
    assert Keys(r) == Keys(es) + [k];
    forall k' | k' != k ensures Get(r, k') == Get(es, k') {
      match IndexOf(Keys(es), k')
      case None =>
      case Some(j) =>
        assert Keys(r)[..j] == Keys(es)[..j];
        IndexOfUnique(Keys(r), k', j);
    }
    assert Keys(r)[..|es|] == Keys(es);
    IndexOfUnique(Keys(r), k, |es|);
  }

  /** In a well-formed array every value found by a lookup is well-formed. */
  lemma GetWellFormed(es: Entries, k: string)
    requires WellFormed(Arr(es)) && Get(es, k).Some?
    ensures WellFormed(Get(es, k).value)
  {
  }

  /** `$a[$k1][$k2]...`: the value reached by following a path of keys. */
  function GetPath(v: Value, path: seq<string>): Option<Value>
    decreases path
  {
    if path == [] then Some(v)
    else if !v.Arr? then None
    else
      match Get(v.entries, path[0])
      case None => None
      case Some(c) => GetPath(c, path[1..])
  }

  /** PHP's `empty()` on an array element: `null`, an empty string or an
      empty array (the string "0" is not treated as empty here). */
  predicate IsEmpty(v: Value) {
    v == Null || v == Scalar("") || v == Arr([])
  }

  /** PHP's `isset($a[$k])`: the key is present and does not hold `null`. */
  predicate IsSet(es: Entries, k: string) {
    Get(es, k).Some? && !Get(es, k).value.Null?
  }

  /** `$config[$key]` read as a string: an absent key reads as PHP's null,
      whose string form is "", and so does a key holding `null`. */
  function Field(es: Entries, key: string): (s: string)
    ensures Get(es, key).Some? && Get(es, key).value.Scalar? ==> s == Get(es, key).value.text
    ensures !(Get(es, key).Some? && Get(es, key).value.Scalar?) ==> s == ""
  {
    match Get(es, key)
    case Some(Scalar(s)) => s
    case _ => ""
  }

  /** Reading a field back after assigning a string to it gives that
      string; the other fields read as before. */
  lemma FieldOfPut(es: Entries, key: string, s: string, other: string)
    requires other != key
    ensures Field(Put(es, key, Scalar(s)), key) == s
    ensures Field(Put(es, key, Scalar(s)), other) == Field(es, other)
  {
    PutSpec(es, key, Scalar(s));
  }
}
