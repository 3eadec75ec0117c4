/**
 * The record builders of the chat handler: `convertSex`, `convertUser` and
 * `getMessage`, which turn server payloads into store records.
 */
module Conversions {
  import opened Model

  /** The store's enum member named like the server's value. */
  function ConvertSex(dto: SexDto): (r: Sex)
    ensures SexToDto(r) == dto
  {
    match dto
    case Male => Sex.Male
    case Female => Sex.Female
    case Secret => Sex.Secret
  }

  /** The server's name of a store sex value; the inverse of ConvertSex. */
  function SexToDto(sex: Sex): SexDto {
    match sex
    case Male => SexDto.Male
    case Female => SexDto.Female
    case Secret => SexDto.Secret
  }

  /** ConvertSex loses nothing: it is a bijection with SexToDto as inverse. */
  lemma ConvertSexBijective(dto: SexDto, sex: Sex)
    ensures SexToDto(ConvertSex(dto)) == dto
    ensures ConvertSex(SexToDto(sex)) == sex
    ensures ConvertSex(dto) == sex <==> dto == SexToDto(sex)
  {
    match dto
    case Male =>
    case Female =>
    case Secret =>
  }

  /** `convertUser`: the store record of a user, keyed by the DTO's `userId`. */
  function ConvertUser(u: UserDto): (r: User)
    ensures r.id == u.userId && r.user == u.user
    ensures UserToDto(r) == u
  {
    User(u.user, u.userId, ConvertSex(u.sex))
  }

  /** The server description of a user record; the inverse of ConvertUser. */
  function UserToDto(u: User): UserDto {
    UserDto(u.id, u.user, SexToDto(u.sex))
  }

  /** ConvertUser keys the record by the DTO's userId and is a bijection between DTOs and records. */
  lemma ConvertUserBijective(dto: UserDto, u: User)
    ensures ConvertUser(dto).id == dto.userId && ConvertUser(dto).user == dto.user
    ensures UserToDto(ConvertUser(dto)) == dto
    ensures ConvertUser(UserToDto(u)) == u
  {
    ConvertSexBijective(dto.sex, u.sex);
  }

  /**
   * JavaScript's `v || null` for a type whose only falsy value is `falsy`
   * (`""` for strings, `0` for numbers, `false` for booleans).
   */
  function OrNull<T(==)>(v: Option<T>, falsy: T): (r: Option<T>)
    ensures r.None? <==> v.None? || v == Some(falsy)
    ensures r.Some? ==> r == v
  {
    if v == Some(falsy) then None else v
  }

  /**
   * `getMessage`: copies the event's fields into a store record; an empty
   * string, a zero edit count or `false` becomes `null`. The files payload is
   * an object and never falsy, so it is copied unchanged.
   */
  function GetMessage(m: MessageDto): (r: Message)
    ensures r.id == m.id && r.time == m.time && r.roomId == m.roomId && r.userId == m.userId
    ensures r.files == m.files
    ensures Normalized(r)
  {
    Message(
      id := m.id,
      time := m.time,
      files := m.files,
      content := OrNull(m.content, ""),
      symbol := OrNull(m.symbol, ""),
      edited := OrNull(m.edited, 0),
      roomId := m.roomId,
      userId := m.userId,
      giphy := OrNull(m.giphy, ""),
      deleted := OrNull(m.deleted, false))
  }

  /** A record holds no falsy value where `getMessage` would have put `null`. */
  predicate Normalized(m: Message) {
    && m.content != Some("")
    && m.symbol != Some("")
    && m.edited != Some(0)
    && m.giphy != Some("")
    && m.deleted != Some(false)
  }

  /** The server payload that carries exactly the fields of a store record. */
  function ToDto(m: Message): MessageDto {
    MessageDto(m.id, m.time, m.files, m.content, m.symbol, m.edited, m.roomId, m.userId, m.giphy, m.deleted)
  }

  /**
   * What `getMessage` keeps and what it drops: the identity, time, room,
   * author and files are copied, each optional field is kept, with its value,
   * exactly when it is truthy, and the result is always normalised.
   */
  lemma GetMessageFields(m: MessageDto)
    ensures var r := GetMessage(m);
      && r.id == m.id && r.time == m.time && r.roomId == m.roomId && r.userId == m.userId
      && r.files == m.files
      && (r.content.Some? <==> m.content.Some? && m.content.value != "")
      && (r.symbol.Some? <==> m.symbol.Some? && m.symbol.value != "")
      && (r.giphy.Some? <==> m.giphy.Some? && m.giphy.value != "")
      && (r.edited.Some? <==> m.edited.Some? && m.edited.value != 0)
      && (r.content.Some? ==> r.content == m.content)
      && (r.symbol.Some? ==> r.symbol == m.symbol)
      && (r.giphy.Some? ==> r.giphy == m.giphy)
      && (r.edited.Some? ==> r.edited == m.edited)
      && (r.deleted == Some(true) <==> m.deleted == Some(true))
      && (r.deleted.Some? ==> r.deleted == Some(true))
      && Normalized(r)
  {
    var d := GetMessage(m).deleted;
    if d.Some? {
      assert d.value != false;
    }
  }

  /**
   * `getMessage` is the identity on exactly the normalised records: a record
   * survives a trip to the server payload and back iff it is normalised.
   */
  lemma GetMessageRoundTrip(m: Message)
    ensures GetMessage(ToDto(m)) == m <==> Normalized(m)
  {
    if GetMessage(ToDto(m)) == m {
      GetMessageFields(ToDto(m));
    }
  }

  /** Normalising a second time changes nothing. */
  lemma GetMessageIdempotent(m: MessageDto)
    ensures GetMessage(ToDto(GetMessage(m))) == GetMessage(m)
  {
    GetMessageFields(m);
    GetMessageRoundTrip(GetMessage(m));
  }
}
