/**
 * `generateVerificationToken` and `generatePasswordResetToken`: each looks up the token row of an
 * email, deletes it by id if there is one, and creates a fresh row. The database does not force one
 * row per email; that is an invariant these two functions keep.
 */
module Tokens {
  import opened Results
  import opened Store

  /** At most one token row per email. */
  predicate OnePerEmail(table: map<TokenId, Token>) {
    forall a, b :: a in table && b in table && table[a].email == table[b].email ==> a == b
  }

  /** The table with every row of `t.email` gone and the new row `t` stored under the fresh id `id`. */
  function Regenerated(table: map<TokenId, Token>, id: TokenId, t: Token): (r: map<TokenId, Token>)
    requires id !in table
    ensures id in r && r[id] == t
    ensures forall k :: k in table && table[k].email != t.email ==> k in r && r[k] == table[k]
    ensures forall k :: k in r ==> k == id || (k in table && table[k].email != t.email)
    ensures OnePerEmail(table) ==> OnePerEmail(r)
  {
    var kept := map k | k in table && table[k].email != t.email :: table[k];
    kept[id := t]
  }

  /**
   * Deleting the one row `findFirst` found for the email, then creating the new row, is the same
   * as `Regenerated` while the table keeps one row per email.
   */
  lemma DeleteThenCreate(table: map<TokenId, Token>, existing: Option<TokenId>, id: TokenId, t: Token)
    requires OnePerEmail(table) && id !in table
    requires existing.Some? ==> existing.value in table && table[existing.value].email == t.email
    requires existing.None? ==> forall k :: k in table ==> table[k].email != t.email
    ensures (if existing.Some? then table - {existing.value} else table)[id := t] == Regenerated(table, id, t)
  {
    var left := (if existing.Some? then table - {existing.value} else table)[id := t];
    var right := Regenerated(table, id, t);
    assert forall k :: k in left && k != id ==> k in table && table[k].email != t.email;
    assert left.Keys == right.Keys;
  }

  /** Regenerating twice for one email leaves only the second token of that email. */
  lemma RegeneratedTwiceKeepsLast(table: map<TokenId, Token>, id1: TokenId, t1: Token, id2: TokenId, t2: Token)
    requires id1 !in table && id2 !in table && id1 != id2 && t1.email == t2.email
    ensures var r := Regenerated(Regenerated(table, id1, t1), id2, t2);
      id1 !in r && r[id2] == t2 && forall k :: k in r && r[k].email == t2.email ==> k == id2
  {
  }

  /** `generateVerificationToken(email)`; `token` is the fresh uuid, `id` the row id the store allocates. */
  method GenerateVerificationToken(db: Database, email: string, token: string, expires: int, id: TokenId)
    returns (createdId: TokenId, created: Token)
    requires db.Valid() && id !in db.verificationTokens
    modifies db`verificationTokens
    ensures db.Valid()
    ensures createdId == id && created == Token(email, token, expires)
    ensures id in db.verificationTokens && db.verificationTokens[id] == created
    ensures forall k :: k in old(db.verificationTokens) && old(db.verificationTokens)[k].email != email ==>
      k in db.verificationTokens && db.verificationTokens[k] == old(db.verificationTokens)[k]
    ensures OnePerEmail(old(db.verificationTokens)) ==>
      db.verificationTokens == Regenerated(old(db.verificationTokens), id, created) && OnePerEmail(db.verificationTokens)
    ensures db.passwordResetTokens == old(db.passwordResetTokens)
  {
    created := Token(email, token, expires);
    ghost var before := db.verificationTokens;
    var existingToken := db.FindVerificationTokenByEmail(email);
    if existingToken.Some? {
      db.DeleteVerificationToken(existingToken.value);
    }
    if OnePerEmail(before) {
      DeleteThenCreate(before, existingToken, id, created);
    }
    db.CreateVerificationToken(id, created);
    createdId := id;
  }

  /** `generatePasswordResetToken(email)`; `token` is the fresh uuid, `id` the row id the store allocates. */
  method GeneratePasswordResetToken(db: Database, email: string, token: string, expires: int, id: TokenId)
    returns (createdId: TokenId, created: Token)
    requires db.Valid() && id !in db.passwordResetTokens
    modifies db`passwordResetTokens
    ensures db.Valid()
    ensures createdId == id && created == Token(email, token, expires)
    ensures id in db.passwordResetTokens && db.passwordResetTokens[id] == created
    ensures forall k :: k in old(db.passwordResetTokens) && old(db.passwordResetTokens)[k].email != email ==>
      k in db.passwordResetTokens && db.passwordResetTokens[k] == old(db.passwordResetTokens)[k]
    ensures OnePerEmail(old(db.passwordResetTokens)) ==>
      db.passwordResetTokens == Regenerated(old(db.passwordResetTokens), id, created) && OnePerEmail(db.passwordResetTokens)
    ensures db.verificationTokens == old(db.verificationTokens)
  {
    created := Token(email, token, expires);
    ghost var before := db.passwordResetTokens;
    var existingToken := db.FindPasswordResetTokenByEmail(email);
    if existingToken.Some? {
      db.DeletePasswordResetToken(existingToken.value);
    }
    if OnePerEmail(before) {
      DeleteThenCreate(before, existingToken, id, created);
    }
    db.CreatePasswordResetToken(id, created);
    createdId := id;
  }
}
