/** The main menu: a difficulty dropdown, a board-size slider and a
    mine-count slider, with the rules that keep them in step, and the start
    button that draws a board from their values.

    Picking a preset loads its size, mine count and mine limit. Moving
    either slider away from the selected preset's value switches the
    dropdown to "Custom". A size change also resets the mine limit to
    max(size*size - 9, 1), so at least one safe cell is left when the board
    has at least two rows.

    The handlers set other widgets, and each widget runs its own handler
    when its value changes, so one user action can set off a chain of
    handlers. The sliders are ipywidgets bounded sliders: a value set
    outside the slider's range is moved to the nearer end, and lowering the
    maximum below the value lowers the value with it. The functions below
    model that chain in the order the widgets run it. */
module Controls {
  import opened Minefield
  import opened Clicks

  datatype Level = Easy | Medium | Hard | Custom

  /** Board size, default mine count and mine limit of a difficulty. */
  datatype Preset = Preset(size: int, holes: int, limit: int)

  /** The range of the size slider and the minimum of the mine-count
      slider. */
  const SizeMin := 3
  const SizeMax := 40
  const HolesMin := 1

  /** The mine limit set when the board size changes: size*size - 9, but
      never below one. */
  function MineLimit(size: int): (r: int)
    ensures r >= 1 && r >= size * size - 9
    ensures r == 1 || r == size * size - 9
    ensures size >= 2 ==> r < size * size
  {
    var square := size * size;
    if square - 9 >= 1 then square - 9 else 1
  }

  /** The difficulty table. Custom carries -1 everywhere, a value no slider
      can take, so any slider move under Custom keeps Custom. Each real
      preset's size is within the size slider's range, its limit is the one
      the size rule gives for that size, and its mine count lies strictly
      within that limit. */
  function Presets(level: Level): (p: Preset)
    ensures level == Custom <==> p.size < 0
    ensures level != Custom ==> SizeMin <= p.size <= SizeMax && p.limit == MineLimit(p.size)
    ensures level != Custom ==> HolesMin <= p.holes < p.limit
  {
    match level
    case Easy => Preset(8, 10, 55)
    case Medium => Preset(16, 40, 247)
    case Hard => Preset(24, 99, 567)
    case Custom => Preset(-1, -1, -1)
  }

  /** The values shown by the three menu widgets; `holesMax` is the upper
      end of the mine-count slider. */
  datatype Menu = Menu(level: Level, size: int, holes: int, holesMax: int)

  /** The menu agrees with its own rules: both sliders are within their
      ranges, the mine limit is the one the size gives, and a selected
      preset's values are on the sliders. */
  predicate Coherent(menu: Menu) {
    && SizeMin <= menu.size <= SizeMax
    && menu.holesMax == MineLimit(menu.size)
    && HolesMin <= menu.holes <= menu.holesMax
    && (menu.level != Custom ==> menu.size == Presets(menu.level).size && menu.holes == Presets(menu.level).holes)
  }

  /** The menu as first shown: Easy with its values. */
  function InitialMenu(): (r: Menu)
    ensures Coherent(r) && r.level == Easy
  {
    var p := Presets(Easy);
    Menu(Easy, p.size, p.holes, p.limit)
  }

  /** A bounded slider's treatment of a value set from code or by the user:
      min(max(v, lo), hi). */
  function Clamp(v: int, lo: int, hi: int): int {
    var atLeast := if v < lo then lo else v;
    if atLeast > hi then hi else atLeast
  }

  // ---------------------------------------------------------------------------
  // The widgets' handlers and setters. A setter runs the widget's handler
  // only when the value actually changes. The dropdown's handler does
  // nothing for Custom, so setting the dropdown to Custom only changes its
  // value.

  /** The mine-count handler: a count other than the selected preset's
      switches the dropdown to Custom. */
  function OnNHoles(menu: Menu): Menu {
    if menu.holes != Presets(menu.level).holes then menu.(level := Custom) else menu
  }

  /** Setting the mine-count slider's value. */
  function SetHoles(menu: Menu, holes: int): Menu {
    var v := Clamp(holes, HolesMin, menu.holesMax);
    if v == menu.holes then menu else OnNHoles(menu.(holes := v))
  }

  /** Setting the mine-count slider's maximum. A value above the new
      maximum is lowered to it, which runs the mine-count handler. */
  function SetHolesMax(menu: Menu, limit: int): Menu {
    var m := menu.(holesMax := limit);
    if menu.holes > limit then OnNHoles(m.(holes := limit)) else m
  }

  /** The size handler: the mine limit follows the new size, and a size
      other than the selected preset's switches the dropdown to Custom. The
      preset is looked up after the limit is set, so it sees a switch the
      mine-count handler made meanwhile. */
  function OnMatrix(menu: Menu): Menu {
    var m := SetHolesMax(menu, MineLimit(menu.size));
    if menu.size != Presets(m.level).size then m.(level := Custom) else m
  }

  /** Setting the size slider's value. */
  function SetSize(menu: Menu, size: int): Menu {
    var v := Clamp(size, SizeMin, SizeMax);
    if v == menu.size then menu else OnMatrix(menu.(size := v))
  }

  /** The dropdown handler: a preset sets the size, then the mine limit,
      then the mine count. */
  function OnDifficulty(menu: Menu): Menu {
    if menu.level == Custom then menu
    else
      var p := Presets(menu.level);
      var sized := SetSize(menu, p.size);
      var limited := SetHolesMax(sized, p.limit);
      SetHoles(limited, p.holes)
  }

  // ---------------------------------------------------------------------------
  // User actions

  /** The user picks `level` in the dropdown. A preset always ends with its
      size, mine count and limit on the sliders. It stays selected unless
      the size change had to lower the mine count first: the lowered count
      is the new limit, which is not the preset's count, so the mine-count
      handler switches to Custom. From a coherent menu that happens exactly
      when the old count is above the preset's limit. */
  function ChangeDifficulty(menu: Menu, level: Level): (r: Menu)
    ensures level == menu.level ==> r == menu
    ensures level == Custom ==> r == menu.(level := Custom)
    ensures level != Custom && level != menu.level ==>
      && r.size == Presets(level).size && r.holes == Presets(level).holes && r.holesMax == Presets(level).limit
      && (r.level == level || r.level == Custom)
      && Coherent(r)
    ensures Coherent(menu) && level != Custom ==> (r.level == level <==> menu.holes <= Presets(level).limit)
    ensures Coherent(menu) ==> Coherent(r)
  {
    if level == menu.level then menu else OnDifficulty(menu.(level := level))
  }

  /** The user moves the size slider to `size`. A new size resets the mine
      limit by the size rule, lowers the mine count to it when needed, and
      switches a preset to Custom. */
  function ChangeMatrix(menu: Menu, size: int): (r: Menu)
    ensures r.size == Clamp(size, SizeMin, SizeMax)
    ensures r.size == menu.size ==> r == menu
    ensures r.size != menu.size ==>
      r.holesMax == MineLimit(r.size) && r.holes == (if menu.holes <= r.holesMax then menu.holes else r.holesMax)
    ensures r.level == menu.level || r.level == Custom
    ensures Coherent(menu) ==> (r.level == menu.level <==> menu.level == Custom || r.size == menu.size)
    ensures Coherent(menu) ==> Coherent(r)
  {
    SetSize(menu, size)
  }

  /** The user moves the mine-count slider to `holes`. A count other than
      the selected preset's switches to Custom. */
  function ChangeNHoles(menu: Menu, holes: int): (r: Menu)
    ensures r.size == menu.size && r.holesMax == menu.holesMax
    ensures r.holes == Clamp(holes, HolesMin, menu.holesMax)
    ensures r.holes == menu.holes ==> r == menu
    ensures r.level == menu.level || r.level == Custom
    ensures Coherent(menu) ==> (r.level == menu.level <==> menu.level == Custom || r.holes == Presets(menu.level).holes)
    ensures Coherent(menu) ==> Coherent(r)
  {
    SetHoles(menu, holes)
  }

  /** A user action on the menu. */
  datatype Action = PickLevel(level: Level) | MoveSize(size: int) | MoveHoles(holes: int)

  function Apply(menu: Menu, a: Action): Menu {
    match a
    case PickLevel(level) => ChangeDifficulty(menu, level)
    case MoveSize(size) => ChangeMatrix(menu, size)
    case MoveHoles(holes) => ChangeNHoles(menu, holes)
  }

  /** The menu after the user's actions, oldest first. */
  function Replay(actions: seq<Action>): Menu {
    if |actions| == 0 then InitialMenu()
    else Apply(Replay(actions[..|actions| - 1]), actions[|actions| - 1])
  }

  /** Every menu the user can reach is coherent. */
  lemma {:induction false} ReplayCoherent(actions: seq<Action>)
    ensures Coherent(Replay(actions))
  {
    if |actions| > 0 {
      ReplayCoherent(actions[..|actions| - 1]);
    }
  }

  /** The start button: a game on a board of the menu's size with the
      menu's number of mines. From a coherent menu the board is always drawn
      and the game can be won by opening at least one cell. */
  function StartGame(menu: Menu, order: seq<int>): (r: Result<Game, ConfigError>)
    requires menu.size >= 2 && IsShuffle(order, menu.size)
    ensures r.Success? <==> 0 <= menu.holes <= menu.size * menu.size
    ensures r.Success? ==> ValidGame(r.value) && r.value.openCells == {} && r.value.disabled == {}
    ensures r.Success? ==> Target(r.value.board) == menu.size * menu.size - menu.holes
    ensures Coherent(menu) ==> r.Success? && Target(r.value.board) >= 1
  {
    NewGame(menu.size, menu.holes, order)
  }

  /** Whatever the user did in the menu, the start button draws a board
      with at least one safe cell. */
  lemma {:induction false} StartAfterReplay(actions: seq<Action>, order: seq<int>)
    requires IsShuffle(order, Replay(actions).size)
    ensures Replay(actions).size >= SizeMin
    ensures StartGame(Replay(actions), order).Success?
    ensures Target(StartGame(Replay(actions), order).value.board) >= 1
  {
    ReplayCoherent(actions);
  }
}
