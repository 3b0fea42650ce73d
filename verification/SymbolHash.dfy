/** The symbol table of the configuration tool (scripts/kconfig/symbol.c): 256 hash chains of named symbols
    and one chain of anonymous ones. */
module SymbolHashModule {
  import opened ArithmeticModule
  import opened Common

  const HASH_SIZE: nat := 257
  const ANONYMOUS: nat := 256

  /** A symbol is an object: two lookups agree only if they return the same one. `flags & SYMBOL_CONST`
      is kept as a boolean, and `next` is set once, when the symbol is put in front of its chain. */
  class Symbol {
    const name: Option<string>
    const isConst: bool
    const next: Symbol?

    constructor (name: Option<string>, isConst: bool, next: Symbol?)
      ensures this.name == name && this.isConst == isConst && this.next == next
    {
      this.name, this.isConst, this.next := name, isConst, next;
    }
  }

  datatype Key = Key(name: string, isConst: bool)

  function CharSum(s: string): nat {
    if s == "" then 0 else CharSum(s[..|s| - 1]) + s[|s| - 1] as int
  }

  function Bucket(name: string): nat {
    CharSum(name) % 256
  }

  /** The names of the three static symbols. */
  predicate IsReserved(name: string) {
    name in ["y", "m", "n"]
  }

  /** The list that starts at `head`. */
  ghost predicate IsLinked(head: Symbol?, chain: seq<Symbol>) {
    if chain == [] then head == null else head == chain[0] && IsLinked(chain[0].next, chain[1..])
  }

  ghost predicate IsFor(s: Symbol, k: Key) {
    s.name == Some(k.name) && s.isConst == k.isConst
  }

  class SymbolTable {
    const yes: Symbol
    const mod: Symbol
    const no: Symbol
    const heads: array<Symbol?>

    /** The chains as sequences, and the map they stand for. */
    ghost var chains: seq<seq<Symbol>>
    ghost var index: map<Key, Symbol>

    constructor ()
      ensures Valid() && fresh(heads) && index == map[] && chains == seq(HASH_SIZE, _ => [])
    {
      yes := new Symbol(Some("y"), true, null);
      mod := new Symbol(Some("m"), true, null);
      no := new Symbol(Some("n"), true, null);
      heads := new Symbol?[HASH_SIZE](_ => null);
      chains := seq(HASH_SIZE, _ => []);
      index := map[];
    }

    ghost predicate AreLinked()
      reads this, heads
    {
      && heads.Length == |chains| == HASH_SIZE
      && forall i :: 0 <= i < HASH_SIZE ==> IsLinked(heads[i], chains[i])
    }

    ghost predicate Valid()
      reads this, heads
    {
      && AreLinked()
      && yes.name == Some("y") && mod.name == Some("m") && no.name == Some("n")
      && (forall s :: s in chains[ANONYMOUS] ==> s.name == None)
      && (forall i, s :: 0 <= i < ANONYMOUS && s in chains[i] ==> IsFiled(index, i, s))
      && (forall k :: k in index ==> IsFor(index[k], k) && !IsReserved(k.name) && index[k] in chains[Bucket(k.name)])
    }

    /** No name is in the table twice as a constant, or twice as a variable, in whatever chain. */
    lemma AtMostOne(i: nat, s: Symbol, j: nat, t: Symbol, k: Key)
      requires Valid() && i < HASH_SIZE && j < HASH_SIZE
      requires s in chains[i] && t in chains[j] && IsFor(s, k) && IsFor(t, k)
      ensures s == t && i == j == Bucket(k.name) && !IsReserved(k.name)
    {
      assert i != ANONYMOUS && j != ANONYMOUS;
      assert IsFiled(index, i, s) && IsFiled(index, j, t);
    }

    /** `yes`, `mod` and `no` are returned for their names and are not in the table. */
    function Static(name: string): (s: Symbol)
      requires IsReserved(name)
      ensures (name == "y" ==> s == yes) && (name == "m" ==> s == mod) && (name == "n" ==> s == no)
    {
      if name == "y" then yes else if name == "m" then mod else no
    }

    /** The loop over one chain. */
    method Search(k: Key) returns (found: Symbol?)
      requires Valid() && !IsReserved(k.name)
      ensures found == if k in index then index[k] else null
    {
      var b := HashOf(k.name);
      ghost var chain := chains[b];
      ghost var n := 0;
      found := heads[b];
      while found != null && !(found.name == Some(k.name) && found.isConst == k.isConst)
        invariant n <= |chain| && IsLinked(found, chain[n..])
        invariant forall i :: 0 <= i < n ==> !IsFor(chain[i], k)
        decreases |chain| - n
      {
        assert chain[n..][1..] == chain[n + 1..];
        n := n + 1;
        found := found.next;
      }
      if found != null {
        assert chain[n] in chain;
        assert IsFiled(index, b, found);
      }
    }

    /** The loop that adds up the characters; the mask keeps the low byte. */
    method HashOf(name: string) returns (h: nat)
      ensures h == Bucket(name) && h < ANONYMOUS
    {
      h := 0;
      for i := 0 to |name|
        invariant h == CharSum(name[..i])
      {
        assert name[..i + 1][..i] == name[..i];
        h := h + name[i] as int;
      }
      assert name[..|name|] == name;
      h := h % 256;
    }

    /** `sym_lookup`: the symbol of that name and kind, made when there is none; every call without a name
        makes an anonymous symbol. */
    method Lookup(name: Option<string>, isConst: bool) returns (s: Symbol)
      requires Valid()
      modifies this`chains, this`index, heads
      ensures Valid()
      ensures name.None? ==> fresh(s) && s.isConst == isConst && index == old(index) && s in chains[ANONYMOUS]
      ensures name.Some? && IsReserved(name.value) ==>
                s == Static(name.value) && index == old(index) && chains == old(chains)
      ensures name.Some? && !IsReserved(name.value) ==>
                var k := Key(name.value, isConst);
                && IsFor(s, k) && index == old(index)[k := s]
                && (if k in old(index) then s == old(index)[k] && chains == old(chains) else fresh(s))
      ensures s.name == name
      ensures (name == Some("y") ==> s == yes) && (name == Some("m") ==> s == mod) && (name == Some("n") ==> s == no)
      ensures |chains| == |old(chains)| && forall i, t :: 0 <= i < |chains| && t in old(chains[i]) ==> t in chains[i]
    {
      if name.Some? {
        if IsReserved(name.value) {
          return Static(name.value);
        }
        var found := Search(Key(name.value, isConst));
        if found != null {
          return found;
        }
        s := AddNamed(Key(name.value, isConst));
      } else {
        s := AddAnonymous(isConst);
      }
    }

    method AddNamed(k: Key) returns (s: Symbol)
      requires Valid() && k !in index && !IsReserved(k.name)
      modifies this`chains, this`index, heads
      ensures Valid() && fresh(s) && IsFor(s, k) && index == old(index)[k := s]
      ensures chains == old(chains)[Bucket(k.name) := [s] + old(chains)[Bucket(k.name)]]
    {
      var b := HashOf(k.name);
      s := Prepend(b, Some(k.name), k.isConst);
      index := index[k := s];
      forall i, t | 0 <= i < ANONYMOUS && t in chains[i] ensures IsFiled(index, i, t) {
        assert (t == s && i == b) || t in old(chains)[i];
      }
    }

    method AddAnonymous(isConst: bool) returns (s: Symbol)
      requires Valid()
      modifies this`chains, heads
      ensures Valid() && fresh(s) && s.name == None && s.isConst == isConst
      ensures chains == old(chains)[ANONYMOUS := [s] + old(chains)[ANONYMOUS]]
    {
      s := Prepend(ANONYMOUS, None, isConst);
    }

    /** The new symbol becomes the head of its chain. */
    method Prepend(b: nat, name: Option<string>, isConst: bool) returns (s: Symbol)
      requires AreLinked() && b < HASH_SIZE
      modifies this`chains, heads
      ensures AreLinked() && fresh(s) && s.name == name && s.isConst == isConst
      ensures chains == old(chains)[b := [s] + old(chains)[b]]
    {
      s := new Symbol(name, isConst, heads[b]);
      heads[b] := s;
      chains := chains[b := [s] + chains[b]];
      assert chains[b][1..] == old(chains)[b];
    }

    /** Any run of lookups on a new table: each returns a symbol of the name asked for, and two of them return the
        same symbol exactly when they ask for the same name and, unless it is reserved, for the same kind. */
    method LookupAll(asked: seq<Query>) returns (got: seq<Symbol>)
      requires Valid() && index == map[]
      modifies this`chains, this`index, heads
      ensures Valid() && AreAlikeAsAsked(got, asked) && AreNamedAsAsked(got, asked)
    {
      got := [];
      for i := 0 to |asked|
        invariant Valid() && AreAlikeAsAsked(got, asked[..i])
        invariant AllAnswered(got, asked[..i]) && AreNamedAsAsked(got, asked[..i])
      {
        var s := LookupNext(asked[i], asked[..i], got);
        assert asked[..i + 1] == asked[..i] + [asked[i]];
        got := got + [s];
      }
      assert asked[..|asked|] == asked;
    }

    method LookupNext(q: Query, asked: seq<Query>, got: seq<Symbol>) returns (s: Symbol)
      requires Valid() && AreAlikeAsAsked(got, asked) && AllAnswered(got, asked)
      modifies this`chains, this`index, heads
      ensures Valid() && AllAnswered(got + [s], asked + [q])
      ensures AreAlikeAsAsked(got + [s], asked + [q]) && s.name == q.name
    {
      s := Ask(q);
      forall k | 0 <= k < |got| && q.name.Some? ensures got[k] == s <==> AskAlike(asked[k], q) {
        AnswersDiffer(got[k], asked[k], s, q);
      }
    }

    method Ask(q: Query) returns (s: Symbol)
      requires Valid()
      modifies this`chains, this`index, heads
      ensures Valid() && Answers(s, q) && s.name == q.name && (q.name.None? ==> fresh(s))
      ensures forall k :: k in old(index) ==> k in index && index[k] == old(index)[k]
    {
      s := Lookup(q.name, q.isConst);
    }

    lemma AnswersDiffer(s: Symbol, p: Query, t: Symbol, q: Query)
      requires Valid() && Answers(s, p) && Answers(t, q) && q.name.Some?
      ensures s == t <==> AskAlike(p, q)
    {
    }

    ghost predicate AllAnswered(got: seq<Symbol>, asked: seq<Query>)
      reads this
    {
      |got| == |asked| && forall k :: 0 <= k < |got| ==> Answers(got[k], asked[k])
    }

    /** What the table keeps of a lookup that returned `s`. */
    ghost predicate Answers(s: Symbol, q: Query)
      reads this
    {
      match q.name
      case None => s.name == None
      case Some(n) => if IsReserved(n) then s == Static(n) else
        Key(n, q.isConst) in index && index[Key(n, q.isConst)] == s
    }

    /** `sym_find`: the variable of that name, or none; constants and anonymous symbols are never found. */
    method Find(name: Option<string>) returns (s: Symbol?)
      requires Valid()
      ensures name.None? ==> s == null
      ensures s != null ==> s.name == name
      ensures (name == Some("y") ==> s == yes) && (name == Some("m") ==> s == mod) && (name == Some("n") ==> s == no)
      ensures name.Some? && IsReserved(name.value) ==> s == Static(name.value)
      ensures name.Some? && !IsReserved(name.value) ==>
                s == (if Key(name.value, false) in index then index[Key(name.value, false)] else null)
    {
      if name.None? {
        return null;
      }
      if IsReserved(name.value) {
        return Static(name.value);
      }
      s := Search(Key(name.value, false));
    }
  }

  datatype Query = Query(name: Option<string>, isConst: bool)

  predicate AskAlike(p: Query, q: Query) {
    p.name.Some? && p.name == q.name && (IsReserved(p.name.value) || p.isConst == q.isConst)
  }

  ghost predicate AreAlikeAsAsked(got: seq<Symbol>, asked: seq<Query>) {
    && |got| == |asked|
    && forall i, j :: 0 <= i < j < |got| ==> (got[i] == got[j] <==> AskAlike(asked[i], asked[j]))
  }

  ghost predicate AreNamedAsAsked(got: seq<Symbol>, asked: seq<Query>) {
    |got| == |asked| && forall k :: 0 <= k < |got| ==> got[k].name == asked[k].name
  }

  lemma {:induction false} CharSumAdds(a: string, b: string)
    ensures CharSum(a + b) == CharSum(a) + CharSum(b)
  {
    if b == "" {
      assert a + b == a;
    } else {
      assert (a + b)[..|a + b| - 1] == a + b[..|b| - 1];
      CharSumAdds(a, b[..|b| - 1]);
    }
  }

  lemma ModAdds(x: nat, y: nat)
    ensures (x + y) % 256 == (x % 256 + y % 256) % 256
  {
    var r := x % 256 + y % 256;
    assert x + y == (x / 256 + y / 256 + r / 256) * 256 + r % 256;
    DivModOf(x / 256 + y / 256 + r / 256, r % 256, 256);
  }

  /** The bucket is the low byte of the sum of the characters, so their order does not matter. */
  lemma BucketAdds(a: string, b: string, c: char)
    ensures Bucket("") == 0 && Bucket([c]) == c as int % 256
    ensures Bucket(a + b) == (Bucket(a) + Bucket(b)) % 256 == Bucket(b + a)
  {
    CharSumAdds(a, b);
    CharSumAdds(b, a);
    ModAdds(CharSum(a), CharSum(b));
    assert [c] == "" + [c] && [c][..0] == "";
  }

  /** A named symbol is in the chain of its hash and is the one the map has for its name and kind. */
  ghost predicate IsFiled(index: map<Key, Symbol>, i: nat, s: Symbol) {
    && s.name.Some? && i == Bucket(s.name.value)
    && Key(s.name.value, s.isConst) in index && index[Key(s.name.value, s.isConst)] == s
  }
}
