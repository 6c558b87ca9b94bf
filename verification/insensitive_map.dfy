/**
  The keyed store used at every scope level (insensitive_map.h).

  The header as written holds two std::maps, one for the values and one meant
  for the original spelling of each key, and offers only `count` and
  `operator[]`, both of which use the key exactly as given: no case folding
  happens and the spelling map is never written. These are `Count` and `Index`.

  symbol_table.cpp calls `has_key`, `item` and `put`, which the header does not
  declare. They are modelled as the header's store addressed through a
  case-fold `fold`, which is a parameter: the fold itself lives in code that is
  not part of this model, so every property here holds for any fold.
 */
module InsensitiveMaps {

  datatype InsensitiveMap<T> = InsensitiveMap(entries: map<string, T>, originalCase: map<string, string>)

  /** The default constructor: both maps start empty. */
  function Empty<T>(): (m: InsensitiveMap<T>)
    ensures forall x :: Count(m, x) == 0
    ensures m.originalCase == map[]
  {
    InsensitiveMap(map[], map[])
  }

  /** `count(x)`: how many entries are stored under exactly the key x. */
  function Count<T>(m: InsensitiveMap<T>, x: string): (n: int)
    ensures n == 0 || n == 1
    ensures n == 1 <==> x in m.entries
  {
    if x in m.entries then 1 else 0
  }

  /**
    `operator[](x)`: the value stored under x. As with std::map, an absent key
    is first inserted with the value-initialised `zero`. The result is the map
    after the access together with the value the reference designates.
   */
  function Index<T>(m: InsensitiveMap<T>, x: string, zero: T): (r: (InsensitiveMap<T>, T))
    ensures Count(r.0, x) == 1 && r.0.entries[x] == r.1
    ensures x in m.entries ==> r.0 == m && r.1 == m.entries[x]
    ensures x !in m.entries ==> r.1 == zero
    ensures forall y :: y != x ==> Count(r.0, y) == Count(m, y)
    ensures forall y :: y in m.entries ==> y in r.0.entries && r.0.entries[y] == m.entries[y]
    ensures r.0.originalCase == m.originalCase
  {
    if x in m.entries then (m, m.entries[x]) else (m.(entries := m.entries[x := zero]), zero)
  }

  /** A second access to the same key finds what the first one left there and changes nothing. */
  lemma IndexTwice<T>(m: InsensitiveMap<T>, x: string, zero: T, zero': T)
    ensures Index(Index(m, x, zero).0, x, zero') == Index(m, x, zero)
  {
  }

  /** Keys are compared exactly: two spellings of one word are two different keys. */
  lemma KeysAreExact<T>(zero: T)
    ensures Count(Index(Empty<T>(), "Animal", zero).0, "animal") == 0
  {
  }

  /** `has_key(k)`: some entry is stored under the folded key. */
  predicate HasKey<T>(fold: string -> string, m: InsensitiveMap<T>, k: string)
  {
    fold(k) in m.entries
  }

  /** `item(k)`: the value stored under the folded key. */
  function Item<T>(fold: string -> string, m: InsensitiveMap<T>, k: string): T
    requires HasKey(fold, m, k)
  {
    m.entries[fold(k)]
  }

  /**
    `put(k, v)`: stores v under the folded key, replacing whatever was there;
    every other entry is left as it was.
   */
  function Put<T>(fold: string -> string, m: InsensitiveMap<T>, k: string, v: T): (r: InsensitiveMap<T>)
    ensures HasKey(fold, r, k) && Item(fold, r, k) == v
    ensures r.entries.Keys == m.entries.Keys + {fold(k)}
    ensures forall y :: y in m.entries && y != fold(k) ==> r.entries[y] == m.entries[y]
  {
    m.(entries := m.entries[fold(k) := v])
  }

  /**
    The builder-side operations are the header's operations on the folded key:
    `has_key` is `count` of the folded key and `item` is `operator[]` of it.
   */
  lemma FoldedAccess<T>(fold: string -> string, m: InsensitiveMap<T>, k: string, zero: T)
    ensures HasKey(fold, m, k) <==> Count(m, fold(k)) == 1
    ensures HasKey(fold, m, k) ==> Item(fold, m, k) == Index(m, fold(k), zero).1
  {
  }

  /** Two names with the same fold address the same entry: `Foo` and `foo` are one key. */
  lemma SameFoldSameEntry<T>(fold: string -> string, m: InsensitiveMap<T>, a: string, b: string, v: T)
    requires fold(a) == fold(b)
    ensures HasKey(fold, m, a) == HasKey(fold, m, b)
    ensures Put(fold, m, a, v) == Put(fold, m, b, v)
  {
  }
}
