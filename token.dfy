/**
  The TUIO 2.0 token (`/tuio2/tok`): a tagged tangible object on the surface.

  A token is a component (session ID, time stamp, position and angle) that also
  carries a symbol ID and a packed Type/User ID. Its fields are updated in
  place, so it is a class. The time stamp and the floating-point position and
  angle belong to the component base class, whose arithmetic is not part of
  this model: they are the type parameters `T` (a TUIO time) and `F` (a
  float), and the token only ever copies them.
*/
module Tokens {

  import opened TypeUserCodec

  class Token<T, F> {
    // Component state
    /** Time stamp of the most recent update. */
    var time: T
    /** Session ID of this token's track. */
    var sessionId: Int32
    var xPos: F
    var yPos: F
    var angle: F

    // Token state
    /** Which marker pattern this token shows. */
    var symbolId: Int32
    var typeId: Short
    var userId: Short

    /**
      Creation with an explicit time stamp: every attribute is the one given.
    */
    constructor WithTime(ttime: T, si: Int32, ti: Short, ui: Short, sym: Int32, xp: F, yp: F, a: F)
      ensures time == ttime && sessionId == si
      ensures SymbolID() == sym && TypeID() == ti && UserID() == ui
      ensures xPos == xp && yPos == yp && angle == a
    {
      time, sessionId, xPos, yPos, angle := ttime, si, xp, yp, a;
      symbolId, typeId, userId := sym, ti, ui;
    }

    /**
      Creation without a time stamp: the component takes the current session
      time, which the clock supplies as `now`.
    */
    constructor (now: T, si: Int32, ti: Short, ui: Short, sym: Int32, xp: F, yp: F, a: F)
      ensures time == now && sessionId == si
      ensures SymbolID() == sym && TypeID() == ti && UserID() == ui
      ensures xPos == xp && yPos == yp && angle == a
    {
      time, sessionId, xPos, yPos, angle := now, si, xp, yp, a;
      symbolId, typeId, userId := sym, ti, ui;
    }

    /**
      The abbreviated form: session and symbol only. No value of the type and
      user IDs is promised.
    */
    constructor Abbreviated(now: T, si: Int32, sym: Int32, xp: F, yp: F, a: F)
      ensures time == now && sessionId == si
      ensures SymbolID() == sym
      ensures xPos == xp && yPos == yp && angle == a
    {
      time, sessionId, xPos, yPos, angle := now, si, xp, yp, a;
      symbolId := sym;
    }

    /**
      The copy form: a new token with all the attributes of `ttok`. All of them
      are values, so nothing mutable is shared with `ttok`.
    */
    constructor Copy(ttok: Token<T, F>)
      ensures SameAttributes(ttok)
      ensures time == ttok.time
    {
      time, sessionId, xPos, yPos, angle := ttok.time, ttok.sessionId, ttok.xPos, ttok.yPos, ttok.angle;
      symbolId, typeId, userId := ttok.symbolId, ttok.typeId, ttok.userId;
    }

    /** This token and `other` agree on every attribute but the time stamp. */
    ghost predicate SameAttributes(other: Token<T, F>)
      reads this, other
    {
      sessionId == other.sessionId && xPos == other.xPos && yPos == other.yPos && angle == other.angle
      && symbolId == other.symbolId && typeId == other.typeId && userId == other.userId
    }

    /**
      A new sample at `ttime` with position and angle unchanged. The motion
      values the component derives from it are not part of this model.
    */
    method Stop(ttime: T)
      modifies this
      ensures time == ttime
      ensures sessionId == old(sessionId) && xPos == old(xPos) && yPos == old(yPos) && angle == old(angle)
      ensures symbolId == old(symbolId) && typeId == old(typeId) && userId == old(userId)
    {
      time := ttime;
    }

    /**
      Takes over the symbol, type, user, position and angle of `ttok`; this
      token keeps its own time stamp and its own session ID.
    */
    method Update(ttok: Token<T, F>)
      modifies this
      ensures time == old(time) && sessionId == old(sessionId)
      ensures symbolId == old(ttok.symbolId) && typeId == old(ttok.typeId) && userId == old(ttok.userId)
      ensures xPos == old(ttok.xPos) && yPos == old(ttok.yPos) && angle == old(ttok.angle)
      ensures ttok != this ==> unchanged(ttok)
    {
      xPos, yPos, angle := ttok.xPos, ttok.yPos, ttok.angle;
      symbolId, typeId, userId := ttok.symbolId, ttok.typeId, ttok.userId;
    }

    /** The stored symbolId; reading it changes nothing. */
    function SymbolID(): (sym: Int32)
      reads this
      ensures sym == symbolId
    {
      symbolId
    }

    /** The stored typeId; reading it changes nothing. */
    function TypeID(): (ti: Short)
      reads this
      ensures ti == typeId
    {
      typeId
    }

    /** The stored userId; reading it changes nothing. */
    function UserID(): (ui: Short)
      reads this
      ensures ui == userId
    {
      userId
    }

    /** The packed Type/User ID: it decodes to exactly this token's type and user IDs. */
    function TypeUserID(): (tu: Int32)
      reads this
      ensures Decode(tu) == TypeUser(typeId, userId)
    {
      DecodeEncode(typeId, userId);
      Encode(typeId, userId)
    }

    /**
      Sets the type and user IDs from a packed value. Reading the packed value
      back gives `tu` again; nothing but the two IDs changes.
    */
    method SetTypeUserID(tu: Int32)
      modifies this
      ensures TypeUser(typeId, userId) == Decode(tu)
      ensures TypeUserID() == tu
      ensures time == old(time) && sessionId == old(sessionId)
      ensures xPos == old(xPos) && yPos == old(yPos) && angle == old(angle)
      ensures symbolId == old(symbolId)
    {
      var d := Decode(tu);
      typeId, userId := d.typeId, d.userId;
      EncodeDecode(tu);
    }
  }

  /**
    Re-storing a token's own packed Type/User ID leaves its type and user IDs
    as they were, whatever their values.
  */
  method RestoreTypeUserID<T, F>(tok: Token<T, F>)
    modifies tok
    ensures tok.typeId == old(tok.typeId) && tok.userId == old(tok.userId)
    ensures tok.time == old(tok.time) && tok.sessionId == old(tok.sessionId) && tok.symbolId == old(tok.symbolId)
    ensures tok.xPos == old(tok.xPos) && tok.yPos == old(tok.yPos) && tok.angle == old(tok.angle)
  {
    tok.SetTypeUserID(tok.TypeUserID());
  }

  /**
    A copy is independent of its source: changing the copy's Type/User ID
    leaves the source as it was.
  */
  method CopyThenRetag<T, F>(src: Token<T, F>, tu: Int32) returns (copy: Token<T, F>)
    ensures fresh(copy) && copy.TypeUserID() == tu
    ensures copy.time == src.time && copy.sessionId == src.sessionId && copy.symbolId == src.symbolId
    ensures copy.xPos == src.xPos && copy.yPos == src.yPos && copy.angle == src.angle
    ensures unchanged(src)
  {
    copy := new Token.Copy(src);
    copy.SetTypeUserID(tu);
  }
}
