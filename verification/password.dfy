/** bcrypt, reduced to the two calls the user model makes: `hash(plaintext, salt)` and
    `compare(plaintext, storedHash)`. The functions themselves are left uninterpreted; the
    model states what it relies on about them as predicates. */
module Password {

  datatype PasswordHasher = PasswordHasher(hash: (string, string) -> string, compare: (string, string) -> bool)
  {
    /** A password matches every hash made from it, and no hash equals its own plaintext. */
    ghost predicate Sound() {
      && (forall p, s :: compare(p, hash(p, s)))
      && (forall p, s :: hash(p, s) != p)
    }

    /** No other password matches a hash (collision freedom). */
    ghost predicate Distinguishes() {
      forall p, q, s :: p != q ==> !compare(q, hash(p, s))
    }
  }

  /** A concrete hasher meeting both assumptions, so that they are consistent. It is a stand-in
      for reasoning only: it keeps the plaintext recoverable, which bcrypt does not. */
  function StandIn(): (h: PasswordHasher)
    ensures h.Sound() && h.Distinguishes()
  {
    var h := PasswordHasher((p: string, s: string) => "$" + p, (q: string, d: string) => d == "$" + q);
    assert forall p: string, s: string :: h.hash(p, s) != p by {
      forall p: string, s: string ensures h.hash(p, s) != p {
        assert |h.hash(p, s)| == |p| + 1;
      }
    }
    assert forall p: string, q: string, s: string :: p != q ==> !h.compare(q, h.hash(p, s)) by {
      forall p: string, q: string, s: string | p != q ensures !h.compare(q, h.hash(p, s)) {
        assert ("$" + p)[1..] == p && ("$" + q)[1..] == q;
      }
    }
    h
  }
}
