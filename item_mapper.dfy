/** The row -> domain mapping of retrospective cards (`mapRowToItem`).
    A storage row, joined with optional profile and vote aggregates, becomes a
    fully defaulted `KptItem`: every property that may be missing from the row
    gets an explicit default, fields are renamed, and the row's viewer
    allow-list is dropped. */
module ItemMapper {
  import opened JsValues

  /** The three columns of a board. */
  datatype KptColumnType = Keep | Problem | Try

  /** The workflow status of a Try card. */
  datatype TryStatus = Pending | InProgress | Done | WontFix

  /** A voter summary as joined from the profiles table. */
  datatype Voter = Voter(id: string, nickname: string)

  /** The storage row with its optional joined fields (`ItemRowWithProfiles`).
      A property typed `x?: T | null` is an `Optional<Nullable<T>>`. */
  datatype ItemRowWithProfiles = ItemRowWithProfiles(
    id: string,
    board_id: string,
    column_name: KptColumnType,
    text: string,
    position: real,
    author_id: string,
    created_at: string,
    updated_at: Optional<Nullable<string>>,
    status: Optional<Nullable<TryStatus>>,
    assignee_id: Optional<Nullable<string>>,
    due_date: Optional<Nullable<string>>,
    allowed_user_ids: Optional<Nullable<seq<string>>>,
    author_nickname: Optional<Nullable<string>>,
    assignee_nickname: Optional<Nullable<string>>,
    vote_count: Optional<int>,
    has_voted: Optional<bool>,
    voters: Optional<seq<Voter>>
  )

  /** The domain card (`KptItem`): nothing in it can be missing. */
  datatype KptItem = KptItem(
    id: string,
    boardId: string,
    column: KptColumnType,
    text: string,
    position: real,
    authorId: string,
    authorNickname: Nullable<string>,
    createdAt: string,
    updatedAt: Nullable<string>,
    status: Nullable<TryStatus>,
    assigneeId: Nullable<string>,
    assigneeNickname: Nullable<string>,
    dueDate: Nullable<string>,
    voteCount: int,
    hasVoted: bool,
    voters: seq<Voter>
  )

  /** `mapRowToItem`: required fields are copied under their domain names, the
      nullable ones collapse "missing" and "null" to null, the aggregates
      default to 0, false and the empty list. */
  function MapRowToItem(row: ItemRowWithProfiles): (item: KptItem)
    // renamed required fields
    ensures item.id == row.id && item.boardId == row.board_id
    ensures item.column == row.column_name && item.text == row.text
    ensures item.position == row.position && item.authorId == row.author_id
    ensures item.createdAt == row.created_at
    // nullable fields: a present value (null included) passes, otherwise null
    ensures row.author_nickname.Defined? ==> item.authorNickname == row.author_nickname.value
    ensures row.author_nickname.Undefined? ==> item.authorNickname == Null
    ensures row.assignee_nickname.Defined? ==> item.assigneeNickname == row.assignee_nickname.value
    ensures row.assignee_nickname.Undefined? ==> item.assigneeNickname == Null
    ensures row.assignee_id.Defined? ==> item.assigneeId == row.assignee_id.value
    ensures row.assignee_id.Undefined? ==> item.assigneeId == Null
    ensures row.due_date.Defined? ==> item.dueDate == row.due_date.value
    ensures row.due_date.Undefined? ==> item.dueDate == Null
    ensures row.status.Defined? ==> item.status == row.status.value
    ensures row.status.Undefined? ==> item.status == Null
    ensures row.updated_at.Defined? ==> item.updatedAt == row.updated_at.value
    ensures row.updated_at.Undefined? ==> item.updatedAt == Null
    // aggregates: a present value passes, otherwise the default
    ensures row.vote_count.Defined? ==> item.voteCount == row.vote_count.value
    ensures row.vote_count.Undefined? ==> item.voteCount == 0
    ensures row.has_voted.Defined? ==> item.hasVoted == row.has_voted.value
    ensures row.has_voted.Undefined? ==> !item.hasVoted
    ensures row.voters.Defined? ==> item.voters == row.voters.value
    ensures row.voters.Undefined? ==> item.voters == []
  {
    KptItem(
      id := row.id,
      boardId := row.board_id,
      column := row.column_name,
      text := row.text,
      position := row.position,
      authorId := row.author_id,
      authorNickname := OrNull(row.author_nickname),
      createdAt := row.created_at,
      updatedAt := OrNull(row.updated_at),
      status := OrNull(row.status),
      assigneeId := OrNull(row.assignee_id),
      assigneeNickname := OrNull(row.assignee_nickname),
      dueDate := OrNull(row.due_date),
      voteCount := row.vote_count.OrElse(0),
      hasVoted := row.has_voted.OrElse(false),
      voters := row.voters.OrElse([])
    )
  }

  /** The row a domain card would be read back from: every property present,
      no allow-list. A right inverse of `MapRowToItem`, which itself is
      many-to-one (see `MapEqualIff`). */
  function ItemToRow(item: KptItem): (row: ItemRowWithProfiles)
    ensures row.allowed_user_ids.Undefined?
    ensures row.vote_count.Defined? && row.has_voted.Defined? && row.voters.Defined?
  {
    ItemRowWithProfiles(
      id := item.id,
      board_id := item.boardId,
      column_name := item.column,
      text := item.text,
      position := item.position,
      author_id := item.authorId,
      created_at := item.createdAt,
      updated_at := Defined(item.updatedAt),
      status := Defined(item.status),
      assignee_id := Defined(item.assigneeId),
      due_date := Defined(item.dueDate),
      allowed_user_ids := Undefined,
      author_nickname := Defined(item.authorNickname),
      assignee_nickname := Defined(item.assigneeNickname),
      vote_count := Defined(item.voteCount),
      has_voted := Defined(item.hasVoted),
      voters := Defined(item.voters)
    )
  }

  /** A row with every default filled in explicitly and the allow-list
      removed: the canonical representative of the rows that map alike. */
  function Normalize(row: ItemRowWithProfiles): (n: ItemRowWithProfiles)
    ensures n.allowed_user_ids.Undefined?
  {
    row.(
      updated_at := Defined(OrNull(row.updated_at)),
      status := Defined(OrNull(row.status)),
      assignee_id := Defined(OrNull(row.assignee_id)),
      due_date := Defined(OrNull(row.due_date)),
      allowed_user_ids := Undefined,
      author_nickname := Defined(OrNull(row.author_nickname)),
      assignee_nickname := Defined(OrNull(row.assignee_nickname)),
      vote_count := Defined(row.vote_count.OrElse(0)),
      has_voted := Defined(row.has_voted.OrElse(false)),
      voters := Defined(row.voters.OrElse([]))
    )
  }

  /** Mapping loses nothing of a domain card: reading back the row written
      for it gives the same card. */
  lemma MapAfterItemToRow(item: KptItem)
    ensures MapRowToItem(ItemToRow(item)) == item
  {
  }

  /** Filling in the defaults by hand does not change the mapped card. */
  lemma MapIgnoresDefaults(row: ItemRowWithProfiles)
    ensures MapRowToItem(Normalize(row)) == MapRowToItem(row)
  {
  }

  /** Writing back a mapped card gives the normalized row. */
  lemma ItemToRowAfterMap(row: ItemRowWithProfiles)
    ensures ItemToRow(MapRowToItem(row)) == Normalize(row)
  {
  }

  /** Exactly what the mapping forgets: two rows map to the same card if and
      only if they agree once the defaults are filled in and the allow-list
      is dropped. */
  lemma MapEqualIff(r1: ItemRowWithProfiles, r2: ItemRowWithProfiles)
    ensures MapRowToItem(r1) == MapRowToItem(r2) <==> Normalize(r1) == Normalize(r2)
  {
    ItemToRowAfterMap(r1);
    ItemToRowAfterMap(r2);
    if Normalize(r1) == Normalize(r2) {
      MapIgnoresDefaults(r1);
      MapIgnoresDefaults(r2);
    }
  }

  /** The allow-list of viewers never reaches the domain card. */
  lemma AllowedUserIdsDropped(row: ItemRowWithProfiles, ids: Optional<Nullable<seq<string>>>)
    ensures MapRowToItem(row.(allowed_user_ids := ids)) == MapRowToItem(row)
  {
    MapEqualIff(row.(allowed_user_ids := ids), row);
  }

  /** A missing nickname and an explicit null nickname give the same card. */
  lemma AbsentAndNullCollapse(row: ItemRowWithProfiles)
    ensures MapRowToItem(row.(author_nickname := Undefined)) == MapRowToItem(row.(author_nickname := Defined(Null)))
    ensures MapRowToItem(row.(assignee_nickname := Undefined)) == MapRowToItem(row.(assignee_nickname := Defined(Null)))
    ensures MapRowToItem(row.(updated_at := Undefined)) == MapRowToItem(row.(updated_at := Defined(Null)))
  {
  }

  /** The storage row used by the mapping's tests, with its optional joined
      fields left out. */
  function BaseRow(): ItemRowWithProfiles
  {
    ItemRowWithProfiles(
      id := "item-1", board_id := "board-1", column_name := Keep, text := "テストテキスト",
      position := 1000.0, author_id := "user-1", created_at := "2024-01-15T10:30:00.000Z",
      updated_at := Defined(NonNull("2024-01-15T11:00:00.000Z")), status := Defined(Null),
      assignee_id := Defined(Null), due_date := Defined(Null), allowed_user_ids := Defined(NonNull(["user-1"])),
      author_nickname := Undefined, assignee_nickname := Undefined,
      vote_count := Undefined, has_voted := Undefined, voters := Undefined
    )
  }

  /** The base row maps to the fully defaulted card of the mapping's tests. */
  lemma BaseRowMapping()
    ensures MapRowToItem(BaseRow()) == KptItem(
      id := "item-1", boardId := "board-1", column := Keep, text := "テストテキスト",
      position := 1000.0, authorId := "user-1", authorNickname := Null,
      createdAt := "2024-01-15T10:30:00.000Z", updatedAt := NonNull("2024-01-15T11:00:00.000Z"),
      status := Null, assigneeId := Null, assigneeNickname := Null, dueDate := Null,
      voteCount := 0, hasVoted := false, voters := [])
  {
  }

  /** A Try card with every joined field present keeps all of them. */
  lemma TryRowMapping()
    ensures var item := MapRowToItem(BaseRow().(
        column_name := Try, status := Defined(NonNull(InProgress)),
        assignee_id := Defined(NonNull("user-2")), assignee_nickname := Defined(NonNull("担当者")),
        due_date := Defined(NonNull("2024-02-15")), vote_count := Defined(3), has_voted := Defined(true),
        voters := Defined([Voter("user-1", "ユーザー1")])));
      && item.column == Try && item.status == NonNull(InProgress)
      && item.assigneeId == NonNull("user-2") && item.assigneeNickname == NonNull("担当者")
      && item.dueDate == NonNull("2024-02-15") && item.voteCount == 3 && item.hasVoted
      && |item.voters| == 1
  {
  }
}
