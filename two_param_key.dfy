/**
 * The per-artist song key (plays, song). A key is "greater" when it has more
 * plays, then the smaller song id.
 */
module TwoParamKey {
  import Order

  datatype Key = Key(numberOfPlays: int, songId: int)

  /** The default constructor: no plays, song 1. */
  function Default(): (r: Key)
    ensures r.numberOfPlays == 0 && r.songId == 1
    ensures forall k: Key :: k.numberOfPlays > 0 ==> Less(r, k)
  {
    Key(0, 1)
  }

  function SetNumberOfPlays(k: Key, n: int): (r: Key)
    ensures r.numberOfPlays == n && r.songId == k.songId
  {
    k.(numberOfPlays := n)
  }

  function SetSongId(k: Key, id: int): (r: Key)
    ensures r.songId == id && r.numberOfPlays == k.numberOfPlays
  {
    k.(songId := id)
  }

  /** operator==: every field equal. */
  function Eq(a: Key, b: Key): (r: bool)
    ensures r <==> a == b
  {
    a.numberOfPlays == b.numberOfPlays && a.songId == b.songId
  }

  /** operator!=: the negation of operator==. */
  function Ne(a: Key, b: Key): (r: bool)
    ensures r <==> a != b
  {
    !Eq(a, b)
  }

  /** operator>: the number of plays decides first, so a greater key never has fewer plays. */
  function Greater(a: Key, b: Key): (r: bool)
    ensures r ==> a != b && a.numberOfPlays >= b.numberOfPlays
    ensures r ==> !Less(a, b)
  {
    if a.numberOfPlays == b.numberOfPlays then a.songId < b.songId else a.numberOfPlays > b.numberOfPlays
  }

  /** operator>=: operator> or operator==. */
  function GreaterEq(a: Key, b: Key): (r: bool)
    ensures r <==> !Less(a, b)
  {
    Greater(a, b) || Eq(a, b)
  }

  /** operator<: written out on its own, the mirror of operator>. */
  function Less(a: Key, b: Key): (r: bool)
    ensures r ==> a != b && a.numberOfPlays <= b.numberOfPlays
  {
    if a.numberOfPlays == b.numberOfPlays then a.songId > b.songId else a.numberOfPlays < b.numberOfPlays
  }

  /** operator<=: operator< or operator==. */
  function LessEq(a: Key, b: Key): (r: bool)
    ensures r <==> !Greater(a, b)
  {
    Less(a, b) || Eq(a, b)
  }

  lemma EqIsEquality(a: Key, b: Key)
    ensures Eq(a, b) <==> a == b
    ensures Ne(a, b) <==> a != b
  {
  }

  /** `>` is the lexicographic order: plays up, then song id down. */
  lemma GreaterIsLexicographic(a: Key, b: Key)
    ensures Greater(a, b) <==>
      a.numberOfPlays > b.numberOfPlays || (a.numberOfPlays == b.numberOfPlays && a.songId < b.songId)
  {
  }

  lemma LessMirrorsGreater(a: Key, b: Key)
    ensures Less(a, b) <==> Greater(b, a)
  {
  }

  lemma Trichotomy(a: Key, b: Key)
    ensures Less(a, b) || Eq(a, b) || Greater(a, b)
    ensures !(Less(a, b) && Eq(a, b)) && !(Less(a, b) && Greater(a, b)) && !(Eq(a, b) && Greater(a, b))
  {
  }

  lemma NonStrict(a: Key, b: Key)
    ensures GreaterEq(a, b) <==> !Less(a, b)
    ensures LessEq(a, b) <==> !Greater(a, b)
  {
  }

  lemma LessTransitive(a: Key, b: Key, c: Key)
    requires Less(a, b) && Less(b, c)
    ensures Less(a, c)
  {
  }

  lemma LessIsStrictTotalOrder()
    ensures Order.StrictTotalOrder(Less)
  {
    forall a, b, c | Less(a, b) && Less(b, c) ensures Less(a, c) {
      LessTransitive(a, b, c);
    }
    forall a, b ensures a == b || Less(a, b) || Less(b, a) {
      Trichotomy(a, b);
      EqIsEquality(a, b);
      LessMirrorsGreater(b, a);
    }
  }
}
