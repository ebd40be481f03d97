/** The object store's hierarchical listing. The bucket is a flat set of keys,
    enumerated here in the store's order; one `listObjectsV2` call with a prefix
    and the delimiter "/" answers with the keys directly under the prefix
    (Contents) and the distinct one-level-deeper prefixes (CommonPrefixes).
    `listFilesRecursive` lists a prefix and then every common prefix in turn. */
module SpacesListing {
  import opened Results
  import opened Strings
  import opened Storage

  /** The longest key, which bounds the depth of the recursive listing. */
  function MaxLen(keys: seq<string>): (n: nat)
    ensures forall k :: k in keys ==> |k| <= n
  {
    if keys == [] then 0
    else var m := MaxLen(keys[1..]);
      assert forall k :: k in keys ==> k == keys[0] || k in keys[1..];
      if |keys[0]| > m then |keys[0]| else m
  }

  /** Key `k` lies under prefix `p` with no further "/" after it: it is one of the prefix's Contents. */
  predicate DirectlyUnder(p: string, k: string) {
    IsPrefix(p, k) && '/' !in k[|p|..]
  }

  /** Key `k` lies under `p` and below a further "/": it rolls up into a common prefix. */
  predicate Deeper(p: string, k: string) {
    IsPrefix(p, k) && '/' in k[|p|..]
  }

  /** Contents of one listing call: the keys directly under `p`, in store order. */
  function Contents(keys: seq<string>, p: string): (r: seq<string>)
    ensures forall k :: k in r <==> k in keys && DirectlyUnder(p, k)
    ensures Distinct(keys) ==> Distinct(r)
  {
    if keys == [] then []
    else
      var rest := Contents(keys[1..], p);
      assert forall k :: k in keys <==> k == keys[0] || k in keys[1..];
      if DirectlyUnder(p, keys[0]) then [keys[0]] + rest else rest
  }

  /** The common prefix a deeper key rolls up to: `p`, the key's next segment, and "/". */
  function CommonPrefixOf(p: string, k: string): (c: string)
    requires Deeper(p, k)
    ensures IsPrefix(c, k)
  {
    var i := FirstIndex(k[|p|..], '/').value;
    k[..|p| + i + 1]
  }

  /** `c` is one level below `p`: `p`, then a segment without "/", then "/". */
  predicate OneLevelBelow(p: string, c: string) {
    |p| < |c| && IsPrefix(p, c) && c[|c| - 1] == '/' && '/' !in c[|p|..|c| - 1]
  }

  lemma CommonPrefixIsOneLevelBelow(p: string, k: string)
    requires Deeper(p, k)
    ensures OneLevelBelow(p, CommonPrefixOf(p, k))
  {
    var i := FirstIndex(k[|p|..], '/').value;
    var c := CommonPrefixOf(p, k);
    assert c[|p|..|c| - 1] == k[|p|..][..i];
  }

  /** A key lies under a common prefix of `p` exactly when it rolls up to it. */
  lemma UnderOneLevelBelow(p: string, c: string, k: string)
    requires OneLevelBelow(p, c)
    ensures IsPrefix(c, k) <==> Deeper(p, k) && CommonPrefixOf(p, k) == c
  {
    if IsPrefix(c, k) {
      var seg := c[|p|..|c| - 1];
      assert k[|p|..][..|seg|] == seg;
      assert k[|p|..][|seg|] == '/';
      assert '/' in k[|p|..];
      assert FirstIndex(k[|p|..], '/').value == |seg|;
    }
  }

  /** `acc` with `x` appended unless it is already there. */
  function AddNew(acc: seq<string>, x: string): seq<string> {
    if x in acc then acc else acc + [x]
  }

  /** CommonPrefixes of one listing call: each deeper key's common prefix, once,
      in order of first occurrence. */
  function CommonPrefixes(keys: seq<string>, p: string): (r: seq<string>)
    ensures Distinct(r)
    ensures forall c :: c in r ==> OneLevelBelow(p, c) && |c| <= MaxLen(keys)
    ensures forall k :: k in keys && Deeper(p, k) ==> CommonPrefixOf(p, k) in r
    ensures forall c :: c in r ==> exists k :: k in keys && Deeper(p, k) && CommonPrefixOf(p, k) == c
    decreases |keys|
  {
    if keys == [] then []
    else
      var front := keys[..|keys| - 1];
      var last := keys[|keys| - 1];
      var acc := CommonPrefixes(front, p);
      assert forall k :: k in keys <==> k == last || k in front;
      assert MaxLen(front) <= MaxLen(keys) by {
        MaxLenMono(front, keys);
      }
      if Deeper(p, last) then
        CommonPrefixIsOneLevelBelow(p, last);
        AddNew(acc, CommonPrefixOf(p, last))
      else acc
  }

  lemma MaxLenMono(a: seq<string>, b: seq<string>)
    requires forall k :: k in a ==> k in b
    ensures MaxLen(a) <= MaxLen(b)
  {
    if a != [] {
      MaxLenMono(a[1..], b);
    }
  }

  /** A listed key together with the prefix whose listing call returned it. */
  datatype Entry = Entry(prefix: string, key: string)

  function Tag(p: string, ks: seq<string>): (r: seq<Entry>)
    ensures |r| == |ks| && forall i :: 0 <= i < |ks| ==> r[i] == Entry(p, ks[i])
  {
    seq(|ks|, i requires 0 <= i < |ks| => Entry(p, ks[i]))
  }

  function KeysOf(es: seq<Entry>): (r: seq<string>)
    ensures |r| == |es| && forall i :: 0 <= i < |es| ==> r[i] == es[i].key
  {
    seq(|es|, i requires 0 <= i < |es| => es[i].key)
  }

  /** `listFilesRecursive(p)`: the prefix's own Contents first, then the
      recursive listing of each of its CommonPrefixes, in their order
      (the fan-out over common prefixes keeps their order, so it is a
      concatenation). */
  function Visit(keys: seq<string>, p: string): (r: seq<Entry>)
    ensures forall e :: e in r ==> e.key in keys && IsPrefix(p, e.key)
    decreases MaxLen(keys) - |p|, 1, 0
  {
    var direct := Tag(p, Contents(keys, p));
    var deeper := VisitAll(keys, CommonPrefixes(keys, p), p);
    assert forall e :: e in direct ==> e.key in Contents(keys, p);
    direct + deeper
  }

  /** The concatenated recursive listings of the common prefixes `cps` of `p`. */
  function VisitAll(keys: seq<string>, cps: seq<string>, p: string): (r: seq<Entry>)
    requires forall c :: c in cps ==> |p| < |c| <= MaxLen(keys) && OneLevelBelow(p, c)
    ensures forall e :: e in r ==> e.key in keys && IsPrefix(p, e.key)
    decreases MaxLen(keys) - |p|, 0, |cps|
  {
    if cps == [] then []
    else
      var first := Visit(keys, cps[0]);
      assert cps[0] in cps && OneLevelBelow(p, cps[0]);
      assert forall e :: e in first ==> IsPrefix(p, e.key) by {
        forall e | e in first ensures IsPrefix(p, e.key) {
          PrefixTrans(p, cps[0], e.key);
        }
      }
      first + VisitAll(keys, cps[1..], p)
  }

  lemma PrefixTrans(a: string, b: string, c: string)
    requires IsPrefix(a, b) && IsPrefix(b, c)
    ensures IsPrefix(a, c)
  {
    assert c[..|a|] == b[..|a|];
  }

  lemma KeysOfAppend(a: seq<Entry>, b: seq<Entry>)
    ensures KeysOf(a + b) == KeysOf(a) + KeysOf(b)
  {
  }

  lemma DistinctAppend(a: seq<string>, b: seq<string>)
    requires Distinct(a) && Distinct(b)
    requires forall k :: k in a ==> k !in b
    ensures Distinct(a + b)
  {
    forall i, j | 0 <= i < j < |a + b| ensures (a + b)[i] != (a + b)[j] {
      if j >= |a| && i < |a| {
        assert (a + b)[i] in a && (a + b)[j] in b;
      }
    }
  }

  /** The recursive listing of `p` visits every key under `p` exactly once. */
  lemma {:induction false} VisitKeys(keys: seq<string>, p: string)
    requires Distinct(keys)
    ensures forall k :: k in KeysOf(Visit(keys, p)) <==> k in keys && IsPrefix(p, k)
    ensures Distinct(KeysOf(Visit(keys, p)))
    decreases MaxLen(keys) - |p|, 1, 0
  {
    var direct := Contents(keys, p);
    var cps := CommonPrefixes(keys, p);
    VisitAllKeys(keys, cps, p);
    var a := KeysOf(Tag(p, direct));
    var b := KeysOf(VisitAll(keys, cps, p));
    assert a == direct;
    KeysOfAppend(Tag(p, direct), VisitAll(keys, cps, p));
    DistinctAppend(a, b);
  }

  /** The listings of distinct common prefixes of `p` together visit exactly the
      deeper keys that roll up into one of them, each once. */
  lemma {:induction false} VisitAllKeys(keys: seq<string>, cps: seq<string>, p: string)
    requires Distinct(keys) && Distinct(cps)
    requires forall c :: c in cps ==> |p| < |c| <= MaxLen(keys) && OneLevelBelow(p, c)
    ensures forall k :: k in KeysOf(VisitAll(keys, cps, p)) <==> k in keys && Deeper(p, k) && CommonPrefixOf(p, k) in cps
    ensures Distinct(KeysOf(VisitAll(keys, cps, p)))
    decreases MaxLen(keys) - |p|, 0, |cps|
  {
    if cps != [] {
      var c := cps[0];
      VisitKeys(keys, c);
      VisitAllKeys(keys, cps[1..], p);
      var a := KeysOf(Visit(keys, c));
      var b := KeysOf(VisitAll(keys, cps[1..], p));
      forall k ensures IsPrefix(c, k) <==> Deeper(p, k) && CommonPrefixOf(p, k) == c {
        UnderOneLevelBelow(p, c, k);
      }
      assert forall x :: x in cps <==> x == c || x in cps[1..];
      assert c !in cps[1..];
      KeysOfAppend(Visit(keys, c), VisitAll(keys, cps[1..], p));
      DistinctAppend(a, b);
    }
  }

  /** Where a listed entry sits: its listing prefix extends `p`, its key lies
      directly under that prefix, and that prefix is `p` itself or ends with "/". */
  predicate WellPlaced(p: string, e: Entry) {
    IsPrefix(p, e.prefix) && DirectlyUnder(e.prefix, e.key)
    && (e.prefix == p || (|e.prefix| > 0 && e.prefix[|e.prefix| - 1] == '/'))
  }

  lemma {:induction false} VisitPlaced(keys: seq<string>, p: string)
    ensures forall e :: e in Visit(keys, p) ==> e.key in keys && WellPlaced(p, e)
    decreases MaxLen(keys) - |p|, 1, 0
  {
    var cps := CommonPrefixes(keys, p);
    VisitAllPlaced(keys, cps, p);
    forall e | e in Visit(keys, p) ensures e.key in keys && WellPlaced(p, e) {
      if e in Tag(p, Contents(keys, p)) {
        var i :| 0 <= i < |Contents(keys, p)| && Tag(p, Contents(keys, p))[i] == e;
        assert e.key in Contents(keys, p);
      }
    }
  }

  lemma {:induction false} VisitAllPlaced(keys: seq<string>, cps: seq<string>, p: string)
    requires forall c :: c in cps ==> |p| < |c| <= MaxLen(keys) && OneLevelBelow(p, c)
    ensures forall e :: e in VisitAll(keys, cps, p) ==> e.key in keys && WellPlaced(p, e)
    decreases MaxLen(keys) - |p|, 0, |cps|
  {
    if cps != [] {
      var c := cps[0];
      VisitPlaced(keys, c);
      VisitAllPlaced(keys, cps[1..], p);
      forall e | e in Visit(keys, c) ensures IsPrefix(p, e.prefix) {
        assert e.prefix[..|c|] == c;
        assert c[..|p|] == p;
        assert e.prefix[..|p|] == c[..|p|];
      }
    }
  }

  /** The bucket name as the URL template renders it: an unset variable reads "undefined". */
  function BucketLabel(bucket: Option<string>): string {
    match bucket
    case None => "undefined"
    case Some(b) => b
  }

  function UrlBase(bucket: Option<string>): string {
    "https://" + BucketLabel(bucket) + ".nyc3.digitaloceanspaces.com/"
  }

  /** `constructFileUrl`: the bucket's public virtual-host URL followed by the key. */
  function ConstructFileUrl(bucket: Option<string>, key: string): (url: string)
    ensures IsPrefix(UrlBase(bucket), url) && url[|UrlBase(bucket)|..] == key
  {
    UrlBase(bucket) + key
  }

  /** The key a public URL of the bucket names, when it is one. */
  function KeyOfUrl(bucket: Option<string>, url: string): Option<string> {
    if IsPrefix(UrlBase(bucket), url) then Some(url[|UrlBase(bucket)|..]) else None
  }

  /** `key.split("/")[1]`. Every key listed under a namespace holds a "/", so the
      second piece exists there; a key without one would give `undefined`. */
  function DocumentIdOf(key: string): string {
    var parts := Split(key, '/');
    if |parts| > 1 then parts[1] else ""
  }

  /** The `FileDetail` a listing call builds for one returned key (an empty key,
      being falsy, gives empty fields). */
  function ToDetail(bucket: Option<string>, e: Entry): (d: FileDetail)
    ensures e.key == "" ==> d == FileDetail("", "", "")
    ensures e.key != "" ==> KeyOfUrl(bucket, d.url) == Some(e.key)
    ensures e.key != "" && IsPrefix(e.prefix, e.key) ==> d.name == e.key[|e.prefix|..]
  {
    if e.key == "" then FileDetail("", "", "")
    else
      var name := ReplaceFirst(e.key, e.prefix, "");
      assert IsPrefix(e.prefix, e.key) ==> name == e.key[|e.prefix|..] by {
        if IsPrefix(e.prefix, e.key) {
          ReplacePrefix(e.key, e.prefix);
        }
      }
      FileDetail(DocumentIdOf(e.key), name, ConstructFileUrl(bucket, e.key))
  }

  /** `listFilesRecursive(p)`: one detail per listed entry, in listing order,
      whose URL names that entry's key. */
  function ListFilesRecursive(bucket: Option<string>, keys: seq<string>, p: string): (r: seq<FileDetail>)
    ensures var v := Visit(keys, p);
      && |r| == |v|
      && forall i :: 0 <= i < |v| && v[i].key != "" ==> KeyOfUrl(bucket, r[i].url) == Some(v[i].key)
  {
    var v := Visit(keys, p);
    seq(|v|, i requires 0 <= i < |v| => ToDetail(bucket, v[i]))
  }

  /** `listFilesInNamespace(ns)`: the recursive listing of the prefix `ns + "/"`. */
  function ListFilesInNamespace(bucket: Option<string>, keys: seq<string>, ns: string): seq<FileDetail> {
    ListFilesRecursive(bucket, keys, ns + "/")
  }

  /** Listing a namespace yields one `FileDetail` per key under `ns/`, no key twice;
      each names the key's last segment (the key minus the prefix whose listing
      returned it, which ends with "/"), the segment after the namespace as the
      document, and the key's public URL. */
  lemma {:induction false} NamespaceListingComplete(bucket: Option<string>, keys: seq<string>, ns: string)
    requires Distinct(keys) && '/' !in ns
    ensures var v := Visit(keys, ns + "/");
      var r := ListFilesInNamespace(bucket, keys, ns);
      && |r| == |v|
      && (forall k :: k in KeysOf(v) <==> k in keys && IsPrefix(ns + "/", k))
      && Distinct(KeysOf(v))
      && forall i :: 0 <= i < |v| ==> DetailOk(bucket, ns, v[i], r[i])
  {
    var p := ns + "/";
    var v := Visit(keys, p);
    var r := ListFilesInNamespace(bucket, keys, ns);
    VisitKeys(keys, p);
    VisitPlaced(keys, p);
    forall i | 0 <= i < |v|
      ensures DetailOk(bucket, ns, v[i], r[i])
    {
      assert v[i] in v;
      PlacedDetail(bucket, ns, v[i]);
    }
  }

  /** What the listing promises of one entry and its `FileDetail`. */
  predicate DetailOk(bucket: Option<string>, ns: string, e: Entry, d: FileDetail) {
    && |e.prefix| > 0
    && |e.key| > |ns|
    && e.key == e.prefix + d.name
    && '/' !in d.name
    && e.prefix[|e.prefix| - 1] == '/'
    && d.documentId == Split(e.key[|ns| + 1..], '/')[0]
    && d.url == ConstructFileUrl(bucket, e.key)
  }

  lemma PlacedDetail(bucket: Option<string>, ns: string, e: Entry)
    requires '/' !in ns && WellPlaced(ns + "/", e)
    ensures DetailOk(bucket, ns, e, ToDetail(bucket, e))
  {
    var p := ns + "/";
    assert |e.key| >= |p| > 0;
    ReplacePrefix(e.key, e.prefix);
    assert e.key == e.prefix + e.key[|e.prefix|..];
    assert e.key[..|p|] == p;
    assert e.key == ns + "/" + e.key[|ns| + 1..];
    SplitCons(ns, '/', e.key[|ns| + 1..]);
  }

  /** A namespace without keys lists nothing (for instance right after its deletion). */
  lemma EmptyNamespaceListsNothing(bucket: Option<string>, keys: seq<string>, ns: string)
    requires Distinct(keys)
    requires forall k :: k in keys ==> !IsPrefix(ns + "/", k)
    ensures ListFilesInNamespace(bucket, keys, ns) == []
  {
    VisitKeys(keys, ns + "/");
    var ks := KeysOf(Visit(keys, ns + "/"));
    NoMemberEmpty(ks);
  }

  /** The part of `x` after its last "/" (all of `x` when it has none). */
  function LastSegment(x: string): (r: string)
    ensures '/' !in r
  {
    if x == [] || x[|x| - 1] == '/' then [] else LastSegment(x[..|x| - 1]) + [x[|x| - 1]]
  }

  lemma {:induction false} LastSegmentAfterSlash(p: string, n: string)
    requires |p| > 0 && p[|p| - 1] == '/' && '/' !in n
    ensures LastSegment(p + n) == n
    decreases |n|
  {
    if n == [] {
      assert p + n == p;
    } else {
      assert (p + n)[..|p + n| - 1] == p + n[..|n| - 1];
      LastSegmentAfterSlash(p, n[..|n| - 1]);
    }
  }

  /** A file stored at `ns/doc/name` appears in the namespace listing with
      `doc` as its document, `name` as its name and its public URL. */
  lemma SavedFileIsListed(bucket: Option<string>, keys: seq<string>, ns: string, doc: string, name: string)
    requires Distinct(keys)
    requires '/' !in ns && '/' !in doc && '/' !in name
    requires ns + "/" + doc + "/" + name in keys
    ensures FileDetail(doc, name, ConstructFileUrl(bucket, ns + "/" + doc + "/" + name))
              in ListFilesInNamespace(bucket, keys, ns)
  {
    var key := ns + "/" + doc + "/" + name;
    assert IsPrefix(ns + "/", key) by {
      assert key[..|ns + "/"|] == ns + "/";
    }
    var i := ListedAt(bucket, keys, ns, key);
    var r := ListFilesInNamespace(bucket, keys, ns);
    DetailOfStoredKey(bucket, ns, doc, name, Visit(keys, ns + "/")[i], r[i]);
    assert r[i] in r;
  }

  /** The position in the namespace listing of a key stored under the namespace. */
  lemma ListedAt(bucket: Option<string>, keys: seq<string>, ns: string, key: string) returns (i: nat)
    requires Distinct(keys) && '/' !in ns
    requires key in keys && IsPrefix(ns + "/", key)
    ensures var v := Visit(keys, ns + "/");
      var r := ListFilesInNamespace(bucket, keys, ns);
      i < |v| == |r| && v[i].key == key && DetailOk(bucket, ns, v[i], r[i])
  {
    var v := Visit(keys, ns + "/");
    NamespaceListingComplete(bucket, keys, ns);
    assert key in KeysOf(v);
    i :| 0 <= i < |v| && KeysOf(v)[i] == key;
  }

  lemma DetailOfStoredKey(bucket: Option<string>, ns: string, doc: string, name: string, e: Entry, d: FileDetail)
    requires '/' !in ns && '/' !in doc && '/' !in name
    requires e.key == ns + "/" + doc + "/" + name
    requires DetailOk(bucket, ns, e, d)
    ensures d == FileDetail(doc, name, ConstructFileUrl(bucket, e.key))
  {
    SameLastSegment(e.prefix, d.name, ns + "/" + doc + "/", name);
    SecondSegment(e.key, ns, doc, name);
  }

  /** Two ways of writing a string as a prefix ending in "/" and a "/"-free rest
      agree on the rest. */
  lemma SameLastSegment(p1: string, n1: string, p2: string, n2: string)
    requires |p1| > 0 && p1[|p1| - 1] == '/' && '/' !in n1
    requires |p2| > 0 && p2[|p2| - 1] == '/' && '/' !in n2
    requires p1 + n1 == p2 + n2
    ensures n1 == n2
  {
    LastSegmentAfterSlash(p1, n1);
    LastSegmentAfterSlash(p2, n2);
  }

  /** The piece after the namespace of `ns/doc/name` is `doc`. */
  lemma SecondSegment(key: string, ns: string, doc: string, name: string)
    requires '/' !in doc && key == ns + "/" + doc + "/" + name
    ensures Split(key[|ns| + 1..], '/')[0] == doc
  {
    var rest := doc + "/" + name;
    assert key == (ns + "/") + rest;
    assert key[|ns + "/"|..] == rest;
    SplitCons(doc, '/', name);
  }
}
