/** The password-reset ledger (`PasswordResetTokensTable`): issuing a token
    revokes the user's unused ones, validation checks the used flag and the
    expiry, consumption sets the flag, and a sweep deletes expired rows.

    The ledger is the `password_reset_token` table keyed by its primary key,
    the token string. The clock reading and the random token are parameters. */
module ResetTokens {
  import opened Common

  datatype ResetToken = ResetToken(
    token: string,
    userId: string,
    email: string,
    expiresAt: int,
    used: bool,
    createdAt: int)

  type Ledger = map<string, ResetToken>

  /** A reset token lives for one day. */
  const TokenLifetime: int := Day

  predicate KeyedByToken(l: Ledger) {
    forall t :: t in l ==> l[t].token == t
  }

  /** A token still awaiting use by `userId`. */
  predicate Pending(r: ResetToken, userId: string) {
    r.userId == userId && !r.used
  }

  /** The ledger's central invariant: at most one unused token per user. */
  predicate OnePendingPerUser(l: Ledger) {
    forall t1, t2 :: t1 in l && t2 in l && !l[t1].used && Pending(l[t2], l[t1].userId) ==> t1 == t2
  }

  predicate WellFormed(l: Ledger) {
    KeyedByToken(l) && OnePendingPerUser(l)
  }

  /** `create_token`: in one transaction, delete the user's unused tokens and
      insert a new one expiring a day after `now`, with the e-mail lower-cased.
      `newToken` plays the part of `secrets.token_urlsafe`; when it equals a row
      that survives the deletion, the insert violates the primary key, the
      transaction rolls back (the deletion included) and nothing is issued. */
  function CreateToken(l: Ledger, userId: string, email: string, now: int, newToken: string)
    : (res: (Ledger, Option<ResetToken>))
    ensures res.1.None? <==> newToken in l && !Pending(l[newToken], userId)
    ensures res.1.None? ==> res.0 == l
    ensures res.1.Some? ==>
      var r := res.1.value;
      && r.token == newToken && r.userId == userId && !r.used
      && r.email == Lower(email)
      && r.createdAt == now && r.expiresAt == now + TokenLifetime
      && newToken in res.0 && res.0[newToken] == r
    ensures res.1.Some? ==> forall t :: t in res.0 && Pending(res.0[t], userId) <==> t == newToken
    ensures res.1.Some? ==> forall t :: t in l && !Pending(l[t], userId) ==> t in res.0 && res.0[t] == l[t]
    ensures res.1.Some? ==> forall t :: t in res.0 && t != newToken ==> t in l && res.0[t] == l[t]
    ensures WellFormed(l) ==> WellFormed(res.0)
  {
    var kept := map t | t in l && !Pending(l[t], userId) :: l[t];
    if newToken in kept then (l, None)
    else
      var r := ResetToken(newToken, userId, Lower(email), now + TokenLifetime, false, now);
      (kept[newToken := r], Some(r))
  }

  /** `get_valid_token`: the row, provided it exists, is unused, and has not
      expired. Expiry is the strict test `expires_at < now`, so a token is still
      valid during its last second. Used and expired give the same answer. */
  function GetValidToken(l: Ledger, token: string, now: int): (r: Option<ResetToken>)
    ensures r.Some? <==> token in l && !l[token].used && now <= l[token].expiresAt
    ensures r.Some? ==> r.value == l[token]
  {
    if token !in l then None
    else if l[token].used then None
    else if l[token].expiresAt < now then None
    else Some(l[token])
  }

  /** `mark_token_as_used`: sets the flag on the row, whatever its previous
      value; true exactly when the row exists. */
  function MarkTokenAsUsed(l: Ledger, token: string): (res: (Ledger, bool))
    ensures res.1 <==> token in l
    ensures res.0.Keys == l.Keys
    ensures res.1 ==> res.0[token] == l[token].(used := true)
    ensures forall t :: t in l && t != token ==> res.0[t] == l[t]
    ensures forall now :: GetValidToken(res.0, token, now).None?
    ensures WellFormed(l) ==> WellFormed(res.0)
  {
    if token in l then (l[token := l[token].(used := true)], true) else (l, false)
  }

  /** The rows a sweep at `now` deletes. */
  function Expired(l: Ledger, now: int): set<string> {
    set t | t in l && l[t].expiresAt < now
  }

  /** `delete_expired_tokens`: deletes exactly the rows with `expires_at < now`,
      used or not, and reports how many it deleted. */
  function DeleteExpiredTokens(l: Ledger, now: int): (res: (Ledger, nat))
    ensures forall t :: t in res.0 <==> t in l && now <= l[t].expiresAt
    ensures forall t :: t in res.0 ==> res.0[t] == l[t]
    ensures res.1 == |Expired(l, now)|
    ensures res.1 + |res.0| == |l|
    ensures WellFormed(l) ==> WellFormed(res.0)
  {
    var kept := map t | t in l && now <= l[t].expiresAt :: l[t];
    assert l.Keys == kept.Keys + Expired(l, now);
    assert kept.Keys !! Expired(l, now);
    (kept, |l| - |kept|)
  }

  /** Issuing a second token for a user revokes the first: it is no longer
      valid at any time. */
  lemma SecondIssueRevokesFirst(l: Ledger, userId: string, email: string,
                                now1: int, token1: string, now2: int, token2: string, later: int)
    requires token1 != token2
    requires CreateToken(l, userId, email, now1, token1).1.Some?
    ensures var l1 := CreateToken(l, userId, email, now1, token1).0;
            var l2 := CreateToken(l1, userId, email, now2, token2);
            l2.1.Some? ==> GetValidToken(l2.0, token1, later).None?
  {
  }

  /** A new token is valid up to and including the second it expires, and
      invalid one second later. */
  lemma ValidThroughLastSecond(l: Ledger, userId: string, email: string, now: int, newToken: string)
    requires CreateToken(l, userId, email, now, newToken).1.Some?
    ensures var l1 := CreateToken(l, userId, email, now, newToken).0;
            && GetValidToken(l1, newToken, now).Some?
            && GetValidToken(l1, newToken, now + TokenLifetime - 1).Some?
            && GetValidToken(l1, newToken, now + TokenLifetime).Some?
            && GetValidToken(l1, newToken, now + TokenLifetime + 1).None?
  {
  }

  /** Following the code, consuming a token twice succeeds twice: the update
      does not filter on the used flag. Single use rests on validation. */
  lemma MarkTwiceSucceedsTwice(l: Ledger, token: string)
    requires token in l
    ensures var first := MarkTokenAsUsed(l, token);
            first.1 && MarkTokenAsUsed(first.0, token).1
            && MarkTokenAsUsed(first.0, token).0 == first.0
  {
  }

  /** A sweep at `now` is invisible to validation at `now` or later. */
  lemma SweepKeepsValidity(l: Ledger, now: int, token: string, later: int)
    requires now <= later
    ensures GetValidToken(DeleteExpiredTokens(l, now).0, token, later) == GetValidToken(l, token, later)
  {
  }
}
