/** The prefix trie of the word-search page: `Trie(words)` stores every word
    as a path of nested objects whose entries are two-element arrays
    `[isWord, sub]`, and `findWithPrefix(prefix, trie)` lists the words stored
    below a prefix. A JavaScript object is modelled as a value holding its own
    keys in creation order and the entry stored under each key. */
module WordTrie {
  import opened Common

  /** A trie level: a plain object from single characters to entries. */
  datatype Obj = Obj(keys: seq<char>, kids: map<char, Entry>)

  /** The array `[isWord, sub]` stored under one character. */
  datatype Entry = Entry(isWord: bool, sub: Obj)

  /** `{}`. */
  const Empty := Obj([], map[])

  /** `curr[c] || [false, {}]`. */
  function Lookup(o: Obj, c: char): Entry
  {
    if c in o.kids then o.kids[c] else Entry(false, Empty)
  }

  /** `curr[c] = sub`: a new key goes after the existing ones, an existing
      key keeps its place. */
  function Store(o: Obj, c: char, e: Entry): Obj
  {
    Obj(if c in o.kids then o.keys else o.keys + [c], o.kids[c := e])
  }

  /** What every JavaScript object satisfies: its own keys are listed once
      each, and all of them, at every level. */
  ghost predicate Valid(o: Obj)
    decreases o
  {
    && (forall k :: k in o.kids <==> k in o.keys)
    && (forall i, j :: 0 <= i < j < |o.keys| ==> o.keys[i] != o.keys[j])
    && (forall k :: k in o.kids ==> Valid(o.kids[k].sub))
  }

  // ---------------------------------------------------------------------
  // Trie
  // ---------------------------------------------------------------------

  /** One pass of the inner `forEach` of `Trie`: every character of w walks
      one level down, creating `[false, {}]` where the key is missing, and the
      entry of the last character is flagged. */
  function Insert(o: Obj, w: string): Obj
    decreases |w|
  {
    if w == [] then o
    else
      var sub := Lookup(o, w[0]);
      Store(o, w[0], Entry(sub.isWord || |w| == 1, Insert(sub.sub, w[1..])))
  }

  /** The entry reached by following the characters of a nonempty w through
      existing keys only; None when w is empty or leaves the trie. */
  function Reach(o: Obj, w: string): Option<Entry>
    decreases |w|
  {
    if w == [] || w[0] !in o.kids then None
    else if |w| == 1 then Some(o.kids[w[0]])
    else Reach(o.kids[w[0]].sub, w[1..])
  }

  /** w is stored: its path exists and its last entry is flagged. */
  predicate IsWord(o: Obj, w: string)
  {
    Reach(o, w).Some? && Reach(o, w).value.isWord
  }

  /** Inserting keeps the object well formed. */
  lemma {:induction false} InsertValid(o: Obj, w: string)
    requires Valid(o)
    ensures Valid(Insert(o, w))
    decreases |w|
  {
    if w != [] {
      var sub := Lookup(o, w[0]);
      InsertValid(sub.sub, w[1..]);
      var r := Insert(o, w);
      assert r.kids == o.kids[w[0] := Entry(sub.isWord || |w| == 1, Insert(sub.sub, w[1..]))];
      forall i, j | 0 <= i < j < |r.keys|
        ensures r.keys[i] != r.keys[j]
      {
        if w[0] !in o.kids && j == |o.keys| {
          assert r.keys[j] == w[0] && r.keys[i] == o.keys[i];
        }
      }
    }
  }

  /** Inserting w adds paths exactly for the nonempty prefixes of w: every
      path that existed is kept, and no other path appears. */
  lemma {:induction false} InsertReach(o: Obj, w: string, v: string)
    ensures Reach(Insert(o, w), v).Some? <==> Reach(o, v).Some? || (v != [] && v <= w)
    decreases |w|
  {
    if w != [] && v != [] {
      var sub := Lookup(o, w[0]);
      if v[0] == w[0] && |v| > 1 {
        InsertReach(sub.sub, w[1..], v[1..]);
        if w[0] !in o.kids {
          EmptyReach(v[1..]);
        }
        assert v <= w <==> v[1..] <= w[1..];
      } else if v[0] == w[0] {
        assert v <= w;
      } else {
        assert !(v <= w);
      }
    }
  }

  /** Inserting w flags exactly w: no flag is ever cleared, and the only new
      word is w itself when it is nonempty. */
  lemma {:induction false} InsertWord(o: Obj, w: string, v: string)
    ensures IsWord(Insert(o, w), v) <==> IsWord(o, v) || (v == w && w != [])
    decreases |w|
  {
    if w != [] && v != [] {
      var sub := Lookup(o, w[0]);
      if v[0] == w[0] && |v| > 1 {
        InsertWord(sub.sub, w[1..], v[1..]);
        if w[0] !in o.kids {
          EmptyReach(v[1..]);
        }
        assert v == w <==> v[1..] == w[1..];
      } else if v[0] == w[0] {
        assert v == w <==> |w| == 1;
      }
    }
  }

  /** Inserting reuses the existing keys: those already present keep their
      entries' order, and new keys only come after them. */
  lemma InsertKeepsKeys(o: Obj, w: string)
    ensures o.keys <= Insert(o, w).keys
    ensures forall k :: k in o.kids ==> k in Insert(o, w).kids
  {
  }

  /** `{}` holds no path. */
  lemma EmptyReach(v: string)
    ensures Reach(Empty, v) == None
  {
  }

  /** `Trie(words)`: starts from `{}` and inserts the words in order. The
      result holds exactly the nonempty words as flagged paths. */
  method Trie(words: seq<string>) returns (data: Obj)
    ensures Valid(data)
    ensures forall v :: IsWord(data, v) <==> v in words && v != []
  {
    data := Empty;
    for i := 0 to |words|
      invariant Valid(data)
      invariant forall v :: IsWord(data, v) <==> v in words[..i] && v != []
    {
      InsertValid(data, words[i]);
      forall v
        ensures IsWord(Insert(data, words[i]), v) <==> v in words[..i + 1] && v != []
      {
        InsertWord(data, words[i], v);
        assert words[..i + 1] == words[..i] + [words[i]];
      }
      data := Insert(data, words[i]);
    }
    assert words[..|words|] == words;
  }

  // ---------------------------------------------------------------------
  // findWithPrefix
  // ---------------------------------------------------------------------

  const DigitKeys := "0123456789"

  /** Keeps the characters of ks that are keys of o. */
  function KeysIn(ks: seq<char>, o: Obj, digits: bool): (r: seq<char>)
    ensures forall k :: k in r <==> k in ks && k in o.kids && (k in DigitKeys <==> digits)
  {
    if ks == [] then []
    else
      var rest := KeysIn(ks[1..], o, digits);
      if ks[0] in o.kids && (ks[0] in DigitKeys <==> digits) then [ks[0]] + rest else rest
  }

  /** `{}` has no keys. */
  lemma {:induction false} KeysInEmpty(ks: seq<char>, digits: bool)
    ensures KeysIn(ks, Empty, digits) == []
  {
    if ks != [] {
      KeysInEmpty(ks[1..], digits);
    }
  }

  /** `Object.keys(o)`: the keys that are array indices ('0' to '9') first,
      in ascending order, then the others in creation order. */
  function ObjectKeys(o: Obj): (ks: seq<char>)
    ensures forall k :: k in ks ==> k in o.kids
  {
    KeysIn(DigitKeys, o, true) + KeysIn(o.keys, o, false)
  }

  /** Of a well-formed object, `Object.keys` lists every key. */
  lemma ObjectKeysComplete(o: Obj)
    requires Valid(o)
    ensures forall k :: k in ObjectKeys(o) <==> k in o.kids
  {
  }

  /** The depth of the deepest path below o: the measure the recursion of
      `findWithPrefix` goes down. */
  ghost function Height(o: Obj): nat
    decreases o, 1
  {
    HeightOf(o, o.kids.Keys)
  }

  ghost function HeightOf(o: Obj, ks: set<char>): nat
    requires ks <= o.kids.Keys
    decreases o, 0, |ks|
  {
    if ks == {} then 0
    else
      var k :| k in ks;
      var h, rest := Height(o.kids[k].sub) + 1, HeightOf(o, ks - {k});
      if h < rest then rest else h
  }

  lemma {:induction false} BelowHeightOf(o: Obj, ks: set<char>, c: char)
    requires ks <= o.kids.Keys && c in ks
    ensures Height(o.kids[c].sub) < HeightOf(o, ks)
    decreases |ks|
  {
    var k :| k in ks && HeightOf(o, ks) == (
      var h, rest := Height(o.kids[k].sub) + 1, HeightOf(o, ks - {k});
      if h < rest then rest else h);
    if k != c {
      BelowHeightOf(o, ks - {k}, c);
    }
  }

  /** Every entry sits lower than the object holding it. */
  lemma ChildLower(o: Obj, c: char)
    ensures Height(Lookup(o, c).sub) <= Height(o)
    ensures c in o.kids ==> Height(Lookup(o, c).sub) < Height(o)
  {
    if c in o.kids {
      BelowHeightOf(o, o.kids.Keys, c);
    } else {
      assert Empty.kids.Keys == {};
    }
  }

  /** `[isWord, curr]` after the `forEach` over the prefix: each character
      looks its key up in the current object, falling back to `[false, {}]`.
      For the empty prefix nothing is looked up. */
  function Walk(o: Obj, p: string): Entry
  {
    if p == [] then Entry(false, o)
    else Lookup(Walk(o, p[..|p| - 1]).sub, p[|p| - 1])
  }

  /** A walk that starts through a key of o ends strictly lower than o. */
  lemma {:induction false} WalkLower(o: Obj, p: string)
    requires p != [] ==> p[0] in o.kids
    ensures p != [] ==> Height(Walk(o, p).sub) < Height(o)
  {
    if p != [] {
      var q := p[..|p| - 1];
      ChildLower(Walk(o, q).sub, p[|p| - 1]);
      if q != [] {
        assert q[0] == p[0];
        WalkLower(o, q);
      }
    }
  }

  /** Every string of ss with the prefix put in front. */
  function Prefixed(prefix: string, ss: seq<string>): (r: seq<string>)
    ensures |r| == |ss|
    ensures forall i :: 0 <= i < |ss| ==> r[i] == prefix + ss[i]
  {
    if ss == [] then [] else Prefixed(prefix, ss[..|ss| - 1]) + [prefix + ss[|ss| - 1]]
  }

  /** The result of `findWithPrefix(prefix, o)`: [] when the first character
      is not a key of o; otherwise the prefix when the walk ends on a flagged
      entry, then, for each key c of the object reached, the prefix followed
      by each result of `findWithPrefix(c, curr)`. */
  function Find(prefix: string, o: Obj): seq<string>
    decreases Height(o), if prefix == [] then 1 else 0, 0
  {
    if |prefix| > 0 && prefix[0] !in ObjectKeys(o) then []
    else
      var e := Walk(o, prefix);
      WalkLower(o, prefix);
      (if e.isWord then [prefix] else []) + FindKeys(prefix, e.sub, ObjectKeys(e.sub))
  }

  /** The loop over `Object.keys(curr)`, for the keys ks in that order. */
  function FindKeys(prefix: string, curr: Obj, ks: seq<char>): seq<string>
    decreases Height(curr), 0, |ks|
  {
    if ks == [] then []
    else FindKeys(prefix, curr, ks[..|ks| - 1]) + Prefixed(prefix, Find([ks[|ks| - 1]], curr))
  }

  /** `findWithPrefix(prefix, trie)`: the check on the first character,
      the walk along the prefix, the prefix itself when flagged, then the
      loop over the keys of the object reached. */
  method FindWithPrefix(prefix: string, trie: Obj) returns (words: seq<string>)
    ensures words == Find(prefix, trie)
    decreases Height(trie), if prefix == [] then 1 else 0, 1
  {
    words := [];
    if |prefix| > 0 && prefix[0] !in ObjectKeys(trie) {
      return [];
    }
    var isWord, curr := WalkPrefix(prefix, trie);
    WalkLower(trie, prefix);
    if isWord {
      words := words + [prefix];
    }
    words := PushKeys(words, prefix, curr);
    FindUnfold(prefix, trie);
  }

  /** The `forEach` over the prefix: `[isWord, curr]` become those of the
      entry each character looks up, `[false, {}]` where it is missing. */
  method WalkPrefix(prefix: string, trie: Obj) returns (isWord: bool, curr: Obj)
    ensures Entry(isWord, curr) == Walk(trie, prefix)
  {
    isWord, curr := false, trie;
    for i := 0 to |prefix|
      invariant Walk(trie, prefix[..i]) == Entry(isWord, curr)
    {
      assert prefix[..i + 1][..i] == prefix[..i];
      var sub := Lookup(curr, prefix[i]);
      isWord := sub.isWord;
      curr := sub.sub;
    }
    assert prefix[..|prefix|] == prefix;
  }

  /** The `forEach` over `Object.keys(curr)`: for each key c, in order, the
      prefix followed by each result of `findWithPrefix(c, curr)` is pushed. */
  method PushKeys(words: seq<string>, prefix: string, curr: Obj) returns (words': seq<string>)
    ensures words' == words + FindKeys(prefix, curr, ObjectKeys(curr))
    decreases Height(curr), 0, 2
  {
    words' := words;
    var ks := ObjectKeys(curr);
    for j := 0 to |ks|
      invariant words' == words + FindKeys(prefix, curr, ks[..j])
    {
      var found := FindWithPrefix([ks[j]], curr);
      ghost var before := words';
      words' := PushPrefixed(words', prefix, found);
      FindKeysSnoc(prefix, curr, ks, j);
      SeqAssoc(words, FindKeys(prefix, curr, ks[..j]), Prefixed(prefix, found));
    }
    assert ks[..|ks|] == ks;
  }

  /** The inner `forEach`: `words.push(prefix + suffix)` for each suffix
      in order. */
  method PushPrefixed(words: seq<string>, prefix: string, found: seq<string>) returns (words': seq<string>)
    ensures words' == words + Prefixed(prefix, found)
  {
    words' := words;
    for m := 0 to |found|
      invariant words' == words + Prefixed(prefix, found[..m])
    {
      PrefixedSnoc(prefix, found, m);
      words' := words' + [prefix + found[m]];
    }
    assert found[..|found|] == found;
  }

  lemma SeqAssoc(a: seq<string>, b: seq<string>, c: seq<string>)
    ensures a + b + c == a + (b + c)
  {
  }

  lemma PrefixedSnoc(prefix: string, ss: seq<string>, m: nat)
    requires m < |ss|
    ensures Prefixed(prefix, ss[..m + 1]) == Prefixed(prefix, ss[..m]) + [prefix + ss[m]]
  {
    assert ss[..m + 1][..m] == ss[..m];
  }

  lemma FindKeysSnoc(prefix: string, curr: Obj, ks: seq<char>, j: nat)
    requires j < |ks|
    ensures FindKeys(prefix, curr, ks[..j + 1])
         == FindKeys(prefix, curr, ks[..j]) + Prefixed(prefix, Find([ks[j]], curr))
  {
    assert ks[..j + 1][..j] == ks[..j];
  }

  /** A nonempty prefix whose first character is not a key of the trie
      finds nothing. */
  lemma FindRootMiss(prefix: string, o: Obj)
    requires |prefix| > 0 && prefix[0] !in o.kids
    ensures Find(prefix, o) == []
  {
  }

  /** The walk ends on the entry the prefix reaches, or on the fallback
      `[false, {}]` once the prefix leaves the trie. */
  lemma {:induction false} WalkReach(o: Obj, p: string)
    requires p != []
    ensures Reach(o, p).Some? ==> Walk(o, p) == Reach(o, p).value
    ensures Reach(o, p).None? ==> Walk(o, p) == Entry(false, Empty)
    decreases |p|
  {
    var q, c := p[..|p| - 1], p[|p| - 1];
    if q != [] {
      assert p == q + [c];
      WalkReach(o, q);
      ReachSnoc(o, q, c);
    }
  }

  /** Reaching q + [c] is reaching q and then the key c. */
  lemma {:induction false} ReachSnoc(o: Obj, q: string, c: char)
    requires q != []
    ensures Reach(o, q + [c]) == (if Reach(o, q).Some? && c in Reach(o, q).value.sub.kids
                                  then Some(Reach(o, q).value.sub.kids[c]) else None)
    decreases |q|
  {
    var p := q + [c];
    if q[0] in o.kids && |q| > 1 {
      assert p[1..] == q[1..] + [c];
      ReachSnoc(o.kids[q[0]].sub, q[1..], c);
    }
  }

  /** A prefix that leaves the trie after its first character finds
      nothing: the walk falls back to `[false, {}]`, which holds no key. */
  lemma FindFallsOff(prefix: string, o: Obj)
    requires prefix != [] && Reach(o, prefix).None?
    ensures Find(prefix, o) == []
  {
    WalkReach(o, prefix);
    var e := Walk(o, prefix);
    assert e == Entry(false, Empty);
    KeysInEmpty(DigitKeys, true);
    KeysInEmpty(Empty.keys, false);
    assert FindKeys(prefix, e.sub, ObjectKeys(e.sub)) == [];
  }

  /** Every string found starts with the prefix. */
  lemma {:induction false} FindStartsWith(prefix: string, o: Obj)
    ensures forall s :: s in Find(prefix, o) ==> prefix <= s
    decreases Height(o), if prefix == [] then 1 else 0, 0
  {
    if |prefix| > 0 && prefix[0] !in ObjectKeys(o) {
    } else {
      var e := Walk(o, prefix);
      WalkLower(o, prefix);
      FindKeysStartWith(prefix, e.sub, ObjectKeys(e.sub));
    }
  }

  /** What the loop over the keys adds is the prefix followed by a nonempty
      suffix. */
  lemma {:induction false} FindKeysStartWith(prefix: string, curr: Obj, ks: seq<char>)
    ensures forall s :: s in FindKeys(prefix, curr, ks) ==> prefix <= s && |s| > |prefix|
    decreases Height(curr), 0, |ks|
  {
    if ks != [] {
      FindKeysStartWith(prefix, curr, ks[..|ks| - 1]);
      var found := Find([ks[|ks| - 1]], curr);
      FindStartsWith([ks[|ks| - 1]], curr);
      forall s | s in Prefixed(prefix, found)
        ensures prefix <= s && |s| > |prefix|
      {
        var i :| 0 <= i < |found| && s == Prefixed(prefix, found)[i];
        assert found[i] in found;
        assert s == prefix + found[i] && |found[i]| > 0;
      }
    }
  }

  /** The prefix itself is among the results exactly when it reaches a
      flagged entry. */
  lemma FindHasItself(prefix: string, o: Obj)
    requires Valid(o)
    ensures prefix in Find(prefix, o) <==> IsWord(o, prefix)
  {
    if |prefix| > 0 && prefix[0] !in ObjectKeys(o) {
    } else {
      var e := Walk(o, prefix);
      if prefix != [] {
        WalkLower(o, prefix);
        WalkReach(o, prefix);
      }
      FindKeysStartWith(prefix, e.sub, ObjectKeys(e.sub));
    }
  }

  /** Reaching p + q is reaching p and then q from the object p reaches. */
  lemma {:induction false} ReachAppend(o: Obj, p: string, q: string)
    requires p != [] && q != []
    ensures Reach(o, p + q) == (if Reach(o, p).Some? then Reach(Reach(o, p).value.sub, q) else None)
    decreases |p|
  {
    if p[0] in o.kids && |p| > 1 {
      assert (p + q)[1..] == p[1..] + q;
      ReachAppend(o.kids[p[0]].sub, p[1..], q);
    }
  }

  /** Every object reached inside a well-formed trie is well formed. */
  lemma {:induction false} ReachValid(o: Obj, p: string)
    requires Valid(o) && Reach(o, p).Some?
    ensures Valid(Reach(o, p).value.sub)
    decreases |p|
  {
    if |p| > 1 {
      ReachValid(o.kids[p[0]].sub, p[1..]);
    }
  }

  /** s is among the prefixed strings exactly when it is the prefix followed
      by one of them. */
  lemma PrefixedMember(prefix: string, found: seq<string>, s: string)
    ensures s in Prefixed(prefix, found) <==> prefix <= s && s[|prefix|..] in found
  {
    if s in Prefixed(prefix, found) {
      var i :| 0 <= i < |found| && s == Prefixed(prefix, found)[i];
      assert s[|prefix|..] == found[i];
    }
    if prefix <= s && s[|prefix|..] in found {
      var i :| 0 <= i < |found| && found[i] == s[|prefix|..];
      assert s == prefix + found[i];
      assert Prefixed(prefix, found)[i] == s;
    }
  }

  /** In a well-formed trie, `findWithPrefix(prefix, o)` returns exactly the
      stored words that start with the prefix. */
  lemma {:induction false} FindExact(prefix: string, o: Obj, s: string)
    requires Valid(o)
    ensures s in Find(prefix, o) <==> IsWord(o, s) && prefix <= s
    decreases Height(o), if prefix == [] then 1 else 0, 2
  {
    if |prefix| > 0 && prefix[0] !in ObjectKeys(o) {
      assert Find(prefix, o) == [];
      ObjectKeysComplete(o);
      NoWordBelow(prefix, o, s);
    } else if prefix != [] && Reach(o, prefix).None? {
      FindFallsOff(prefix, o);
      NoWordBelow(prefix, o, s);
    } else {
      FindReached(prefix, o, s);
    }
  }

  /** Past the check on the first character, `findWithPrefix` returns the
      prefix when flagged, then what the loop over the keys collects. */
  lemma FindUnfold(prefix: string, o: Obj)
    requires prefix == [] || prefix[0] in ObjectKeys(o)
    ensures var e := Walk(o, prefix);
      Find(prefix, o) == (if e.isWord then [prefix] else []) + FindKeys(prefix, e.sub, ObjectKeys(e.sub))
  {
  }

  lemma SplitAfter(prefix: string, s: string)
    requires prefix <= s
    ensures s == prefix + s[|prefix|..]
  {
  }

  /** No stored word extends a nonempty prefix that has no path. */
  lemma NoWordBelow(prefix: string, o: Obj, s: string)
    requires prefix != [] && Reach(o, prefix).None?
    ensures !(IsWord(o, s) && prefix <= s)
  {
    if prefix <= s && |s| > |prefix| {
      assert s == prefix + s[|prefix|..];
      ReachAppend(o, prefix, s[|prefix|..]);
    } else if prefix <= s {
      assert s == prefix;
    }
  }

  /** The case of `FindExact` where the walk ends on an entry of the trie,
      or the prefix is empty. */
  lemma {:induction false} FindReached(prefix: string, o: Obj, s: string)
    requires Valid(o)
    requires prefix == [] || (prefix[0] in ObjectKeys(o) && Reach(o, prefix).Some?)
    ensures s in Find(prefix, o) <==> IsWord(o, s) && prefix <= s
    decreases Height(o), if prefix == [] then 1 else 0, 1
  {
    var e := Walk(o, prefix);
    WalkLower(o, prefix);
    if prefix != [] {
      WalkReach(o, prefix);
      ReachValid(o, prefix);
    }
    var ks := ObjectKeys(e.sub);
    var head := if e.isWord then [prefix] else [];
    var tail := FindKeys(prefix, e.sub, ks);
    FindUnfold(prefix, o);
    assert s in Find(prefix, o) <==> s in head || s in tail;
    FindKeysStartWith(prefix, e.sub, ks);
    if prefix <= s && |s| > |prefix| {
      FindBeyond(prefix, o, e, s);
      assert |s| != |prefix|;
    } else if prefix <= s {
      assert s == prefix && s !in tail;
      assert IsWord(o, s) <==> e.isWord;
    } else {
      assert s !in head && s !in tail;
    }
  }

  /** A string longer than the prefix comes from the loop over the keys
      exactly when it is a word stored below the entry the prefix reaches. */
  lemma FindBeyond(prefix: string, o: Obj, e: Entry, s: string)
    requires Valid(e.sub) && prefix <= s && |s| > |prefix|
    requires prefix == [] ==> e == Entry(false, o)
    requires prefix != [] ==> Reach(o, prefix) == Some(e)
    requires Height(e.sub) < Height(o) || prefix == []
    ensures s in FindKeys(prefix, e.sub, ObjectKeys(e.sub)) <==> IsWord(o, s)
    decreases Height(o), if prefix == [] then 1 else 0, 0
  {
    var q := s[|prefix|..];
    SplitAfter(prefix, s);
    if prefix != [] {
      ReachAppend(o, prefix, q);
    }
    FindKeysExact(prefix, e.sub, ObjectKeys(e.sub), q);
    ObjectKeysComplete(e.sub);
  }

  /** The loop over the keys ks of curr yields prefix + q exactly for the
      words q stored in curr whose first character is in ks. */
  lemma {:induction false} FindKeysExact(prefix: string, curr: Obj, ks: seq<char>, q: string)
    requires Valid(curr) && q != []
    ensures prefix + q in FindKeys(prefix, curr, ks) <==> q[0] in ks && IsWord(curr, q)
    decreases Height(curr), 0, |ks| + 2
  {
    if ks != [] {
      var k := ks[|ks| - 1];
      var init := ks[..|ks| - 1];
      assert ks == init + [k];
      FindKeysExact(prefix, curr, init, q);
      var s := prefix + q;
      assert s[|prefix|..] == q;
      PrefixedMember(prefix, Find([k], curr), s);
      FindExact([k], curr, q);
      assert [k] <= q <==> q[0] == k;
    }
  }

  /** After `Trie(words)`, `findWithPrefix(prefix, data)` returns exactly the
      nonempty inserted words that start with the prefix. */
  lemma TrieFind(words: seq<string>, data: Obj, prefix: string, s: string)
    requires Valid(data)
    requires forall v :: IsWord(data, v) <==> v in words && v != []
    ensures s in Find(prefix, data) <==> s in words && s != [] && prefix <= s
  {
    FindExact(prefix, data, s);
  }
}
