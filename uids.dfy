/**
 * Person identifiers (src/backend.rs:22-35). A `Uid` wraps a Telegram `UserId`, an
 * unsigned 64-bit number; the store keeps it in a signed 64-bit SQLite column.
 * The two conversions are Rust `as` casts, which keep the 64 bits and only
 * reinterpret them.
 */
module Uids {

  const TwoTo63: int := 0x8000_0000_0000_0000
  const TwoTo64: int := 0x1_0000_0000_0000_0000

  type U64 = x: int | 0 <= x < 0x1_0000_0000_0000_0000
  type I64 = x: int | -0x8000_0000_0000_0000 <= x < 0x8000_0000_0000_0000

  datatype Uid = Uid(user: U64)

  /** `impl From<i64> for Uid`: `value as u64`. */
  function UidFromI64(value: I64): (u: Uid)
    ensures (u.user - value) % TwoTo64 == 0
    ensures value >= 0 ==> u.user == value
    ensures value < 0 ==> u.user >= TwoTo63
  {
    Uid(if value < 0 then value + TwoTo64 else value)
  }

  /** `impl From<Uid> for i64`: `val.0.0 as i64`. */
  function UidToI64(u: Uid): (value: I64)
    ensures (u.user - value) % TwoTo64 == 0
    ensures u.user < TwoTo63 ==> value == u.user
    ensures u.user >= TwoTo63 ==> value < 0
  {
    if u.user < TwoTo63 then u.user else u.user - TwoTo64
  }

  /** Every stored person number reads back as itself. */
  lemma I64RoundTrip(value: I64)
    ensures UidToI64(UidFromI64(value)) == value
  {
  }

  /** Every user identifier is stored under a number that reads back as it. */
  lemma UidRoundTrip(u: Uid)
    ensures UidFromI64(UidToI64(u)) == u
  {
  }

  /** Distinct users are stored under distinct numbers, so (person, day) keys never collide. */
  lemma UidToI64Injective(a: Uid, b: Uid)
    ensures UidToI64(a) == UidToI64(b) ==> a == b
  {
    UidRoundTrip(a);
    UidRoundTrip(b);
  }
}
