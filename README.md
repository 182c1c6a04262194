# TUIO 2.0 token, modelled in Dafny

This project models the `TuioToken` class of the TUIO 2.0 C++ library: the
`/tuio2/tok` entity, a tagged tangible object tracked on an interactive surface.
A token is a component (session ID, time stamp, x and y position, angle) that
adds three identity fields. These are a symbol ID (`int`), a type ID (`short`)
and a user ID (`short`). The type and user IDs travel on the wire packed into
one 32-bit `int`, the Type/User ID.

Two modules:

- `TypeUserCodec` (`type_user_codec.dfy`) is the packed Type/User ID codec.
  - `Short` and `Int32` are the C++ `short` and `int`, as integer newtypes with
    their exact ranges.
  - Each C++ operator that the codec uses is written out on mathematical
    integers, with 32-bit and 16-bit wrap-around made explicit. `|` and `&`
    work bit by bit (`Or`, `And`) on the 32-bit two's complement patterns.
    `<< 16`, the arithmetic `>> 16` and the conversion to `short` are
    arithmetic with explicit wrap-around.
  - The layout: the type ID is in bits 31..16 and the user ID in bits 15..0.
    `Encode` computes `(type_id << 16) | (user_id & 0xFFFF)`. `Decode` computes
    `(short)(tu >> 16)` and `(short)(tu & 0xFFFF)`.
  - The user half is masked explicitly. A negative `user_id` is sign-extended
    when promoted to `int`, and without the mask it would overwrite the type
    half.
  - `Unsigned16` and `Unsigned32` read bit patterns as unsigned numbers. They
    give an arithmetic reference for the layout, which the lemmas relate to the
    bit-level definitions.
- `Tokens` (`token.dfy`) holds the class `Token<T, F>`.
  - Its fields are updated in place, as in the source.
  - `T` stands for the library's `TuioTime` and `F` for `float`. The base
    component class does the arithmetic on these, which is not modelled here.
    The token only copies them.
  - The accessors `SymbolID`, `TypeID` and `UserID` are the `const` getters.
    Being Dafny functions, they read the object and change nothing. The
    constructors' contracts are stated through them.

Two readings of the header's documentation:

- The copy constructor takes the attributes of the given token
  (`TUIO2/TuioToken.h:92-98`).
- The abbreviated constructor's documentation (`TUIO2/TuioToken.h:80-90`) names
  only the session and symbol IDs, so no type or user ID is promised.

## Model

| member | source | states |
|---|---|---|
| `TypeUserCodec.DecodeEncode` | TUIO2/TuioToken.h:138-148 | decoding the packed value of any pair of `short`s gives back that type ID and that user ID (`setTypeUserID(getTypeUserID())` changes neither) |
| `TypeUserCodec.EncodeDecode` | TUIO2/TuioToken.h:138-148 | encoding the pair decoded from any 32-bit value gives back that value; with `DecodeEncode`, the codec is a bijection between 32-bit values and (short, short) pairs |
| `TypeUserCodec.EncodeLayout` | TUIO2/TuioToken.h:138-142 | the word built by the bit operations spells (unsigned type half) * 2^16 + (unsigned user half): the type ID fills the high half and the user ID the low half, whatever their signs |
| `TypeUserCodec.DecodeLayout` | TUIO2/TuioToken.h:144-148 | every 32-bit value equals (unsigned decoded type) * 2^16 + (unsigned decoded user): decoding reads the high half as the type and the low half as the user |
| `TypeUserCodec.ShiftedHalf` | TUIO2/TuioToken.h:138-142 | `type_id << 16`, with `type_id` promoted from `short` to `int`, leaves exactly the 16-bit pattern of `type_id` in the high half and zeros in the low half |
| `TypeUserCodec.MaskedLowHalf` | TUIO2/TuioToken.h:138-148 | `x & 0xFFFF` is the low 16 bits of the 32-bit pattern of `x`, for every `int` `x`, negative ones included |
| `TypeUserCodec.ShiftedDownHalf` | TUIO2/TuioToken.h:144-148 | `(short)(tu >> 16)` is the high 16 bits of the 32-bit pattern of `tu`, for every `int` `tu` |
| `TypeUserCodec.UnmaskedUserClobbersType` | TUIO2/TuioToken.h:138-142 | without the mask, a user ID of -1 ORed in sets every bit, and the packed value decodes to type ID -1 whatever the type ID was; so the mask is needed |
| `TypeUserCodec.EncodeInjective` | TUIO2/TuioToken.h:138-142 | two (type, user) pairs with the same packed value are the same pair |
| `TypeUserCodec.EncodeSign` | TUIO2/TuioToken.h:138-142 | the packed value is negative exactly when the type ID is negative, so the user ID's sign never reaches the sign bit |
| `Tokens.Token.WithTime` | TUIO2/TuioToken.h:51-64 | the token gets the given time stamp, session ID and position and angle, and `SymbolID()`, `TypeID()` and `UserID()` return the given symbol, type and user IDs |
| `Tokens.Token.constructor` | TUIO2/TuioToken.h:66-78 | like `WithTime`, except that the time stamp is the current session time supplied by the clock |
| `Tokens.Token.Abbreviated` | TUIO2/TuioToken.h:80-90 | the token gets the current session time, the given session ID, the given position and angle, and `SymbolID()` returns the given symbol ID; nothing is said about type and user IDs |
| `Tokens.Token.Copy` | TUIO2/TuioToken.h:92-98 | the new token (fresh, so not the source) has the source's session ID, position, angle, symbol, type and user IDs, and (as read here) its time stamp |
| `Tokens.Token.Stop` | TUIO2/TuioToken.h:105-109 | the time stamp becomes the given time; position, angle, session, symbol, type and user IDs are unchanged |
| `Tokens.Token.Update` | TUIO2/TuioToken.h:111-118 | symbol, type and user IDs and position and angle become those of `ttok` (as they were before the call, so `Update(this)` is a no-op); the token's own time stamp and session ID are kept; `ttok` is not modified |
| `Tokens.Token.SymbolID` | TUIO2/TuioToken.h:120-124 | returns the stored symbol ID; reads the object and changes nothing |
| `Tokens.Token.TypeID` | TUIO2/TuioToken.h:126-130 | returns the stored type ID; reads the object and changes nothing |
| `Tokens.Token.UserID` | TUIO2/TuioToken.h:132-136 | returns the stored user ID; reads the object and changes nothing |
| `Tokens.Token.TypeUserID` | TUIO2/TuioToken.h:138-142 | the packed value decodes to exactly this token's type ID and user ID, and reading it changes nothing |
| `Tokens.Token.SetTypeUserID` | TUIO2/TuioToken.h:144-148 | type and user IDs become the decoded halves of `tu`; afterwards `TypeUserID()` returns `tu`; time stamp, session ID, position, angle and symbol ID are unchanged |
| `Tokens.RestoreTypeUserID` | TUIO2/TuioToken.h:138-148 | `tok.SetTypeUserID(tok.TypeUserID())` leaves every attribute of the token as it was, for all type and user IDs |
| `Tokens.CopyThenRetag` | TUIO2/TuioToken.h:92-98 | a copy changed through `SetTypeUserID` carries the new packed value while the source token is left unchanged: the copy shares no mutable state with it |

## Left out

- The bodies of `TuioToken.cpp` are not part of this model. The header fixes
  only the widths (`TUIO2/TuioToken.h:42-46`, 142, 148). The layout is a
  modelling choice: type ID in bits 31..16, user ID in bits 15..0, user half
  masked with `0xFFFF`.
- `TuioComponent` is not part of this model. This covers motion derivation
  (velocity, acceleration, rotation speed), path length, the start time, the
  state flags and the `update` overloads taking a time and a position, which
  `using TuioComponent::update` brings into scope.
- `Tokens.Token.Stop`: the speed and acceleration it recomputes are float
  arithmetic in `TuioComponent`. Only the new time stamp and what stays
  unchanged are stated.
- `Tokens.Token.Copy`: the header says only that the copy takes "the
  attributes" of the given token. Reading the session ID and the time stamp as
  attributes, and so copying both, is an interpretation; the base class that
  would decide it is not part of this model.
- `Tokens.Token.Update`: the header exempts only the time stamp from the
  attributes taken over. Keeping the token's own session ID as well is an
  interpretation: a session ID names the track being updated, and the base
  class that would decide it is not part of this model.
- `TuioTime` arithmetic and float coordinates are left out. They are the type
  parameters `T` and `F`, and the model only copies them.
- The constructors without a time argument are assumed to stamp the token
  with the current session time. Reading a clock is I/O, so that reading is
  passed in as the parameter `now`.
- Shifting a negative `int` left and right, and narrowing to `short`, are
  modelled with two's complement wrap-around. The arithmetic right shift
  rounds down.
- `TUIO2/WebSockSender.h` is left out. It is socket-level network I/O on top of
  `TcpSender` and the OSC packet library, neither of which is part of this model.
- Threading around senders is left out.
