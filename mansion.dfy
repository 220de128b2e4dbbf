/** The map of the mansion (`Sala`): a fixed binary tree of rooms, each with
    a name, an optional clue (the empty string means "no clue here") and a
    flag that records whether its clue has been collected. */
module Mansion {

  class Room {
    /** `nome` and `pista_estatica`: set when the room is created. */
    const name: string
    const clue: string
    /** `pista_coletada`: the only field that changes after the map is built. */
    var collected: bool
    /** `esquerda` and `direita`: linked once, while the map is built. */
    var left: Room?
    var right: Room?

    /** `criarSala`: a room with no exits whose clue has not been collected. */
    constructor (name: string, clue: string)
      ensures this.name == name && this.clue == clue
      ensures !collected && left == null && right == null
    {
      this.name := name;
      this.clue := clue;
      collected := false;
      left, right := null, null;
    }
  }

  /** A layout of rooms as a value. */
  datatype Plan = NoRoom | Site(name: string, clue: string, left: Plan, right: Plan)

  /** The layout `montarMapa` builds. */
  const MansionPlan: Plan :=
    Site("Hall de Entrada", "A altura do culpado e acima de 1.80m.",
      Site("Sala de Estar", "O culpado fuma charutos cubanos.",
        Site("Quarto Principal", "O culpado tem um relogio suico de ouro.",
          Site("Banheiro", "A digital do culpado esta na lamina da faca.", NoRoom, NoRoom),
          NoRoom),
        Site("Biblioteca", "A arma do crime e um castical de bronze.", NoRoom, NoRoom)),
      Site("Cozinha", "O culpado possui uma alergia a amendoim.",
        NoRoom,
        Site("Dispensa", "O culpado deixou um lenco bordado com a letra 'C'.", NoRoom, NoRoom)))

  /** `room` is the root of rooms laid out as `plan`, none of them collected yet. */
  ghost predicate Realizes(room: Room?, plan: Plan, rooms: set<Room>)
    reads rooms
  {
    match plan
    case NoRoom => room == null
    case Site(n, c, l, r) =>
      room != null && room in rooms &&
      room.name == n && room.clue == c && !room.collected &&
      Realizes(room.left, l, rooms) && Realizes(room.right, r, rooms)
  }

  /** Every exit of a room in `rooms` leads to a room in `rooms`. */
  ghost predicate Closed(rooms: set<Room>)
    reads rooms`left, rooms`right
  {
    (forall r {:trigger r.left} :: r in rooms && r.left != null ==> r.left in rooms) &&
    (forall r {:trigger r.right} :: r in rooms && r.right != null ==> r.right in rooms)
  }

  /** The seven rooms, linked and named as `MansionPlan` says, form a closed
      map laid out as the plan. */
  lemma LinkedAsPlanned(hall: Room, livingRoom: Room, kitchen: Room, bedroom: Room,
                        library: Room, pantry: Room, bathroom: Room)
    requires hall.left == livingRoom && hall.right == kitchen
    requires livingRoom.left == bedroom && livingRoom.right == library
    requires kitchen.left == null && kitchen.right == pantry
    requires bedroom.left == bathroom && bedroom.right == null
    requires library.left == null && library.right == null
    requires pantry.left == null && pantry.right == null
    requires bathroom.left == null && bathroom.right == null
    requires hall.name == MansionPlan.name && hall.clue == MansionPlan.clue
    requires livingRoom.name == MansionPlan.left.name && livingRoom.clue == MansionPlan.left.clue
    requires kitchen.name == MansionPlan.right.name && kitchen.clue == MansionPlan.right.clue
    requires bedroom.name == MansionPlan.left.left.name && bedroom.clue == MansionPlan.left.left.clue
    requires library.name == MansionPlan.left.right.name && library.clue == MansionPlan.left.right.clue
    requires pantry.name == MansionPlan.right.right.name && pantry.clue == MansionPlan.right.right.clue
    requires bathroom.name == MansionPlan.left.left.left.name && bathroom.clue == MansionPlan.left.left.left.clue
    requires !hall.collected && !livingRoom.collected && !kitchen.collected && !bedroom.collected
    requires !library.collected && !pantry.collected && !bathroom.collected
    ensures var rooms := {hall, livingRoom, kitchen, bedroom, library, pantry, bathroom};
            Closed(rooms) && Realizes(hall, MansionPlan, rooms) &&
            forall r :: r in rooms ==> !r.collected
  {
    var rooms := {hall, livingRoom, kitchen, bedroom, library, pantry, bathroom};
    assert Realizes(bathroom, MansionPlan.left.left.left, rooms);
    assert Realizes(bedroom, MansionPlan.left.left, rooms);
    assert Realizes(library, MansionPlan.left.right, rooms);
    assert Realizes(livingRoom, MansionPlan.left, rooms);
    assert Realizes(pantry, MansionPlan.right.right, rooms);
    assert Realizes(kitchen, MansionPlan.right, rooms);
  }

  /** Seven different rooms make a set of seven. */
  lemma SevenRooms(a: Room, b: Room, c: Room, d: Room, e: Room, f: Room, g: Room)
    requires a !in {b, c, d, e, f, g} && b !in {c, d, e, f, g} && c !in {d, e, f, g}
    requires d !in {e, f, g} && e !in {f, g} && f != g
    ensures |{a, b, c, d, e, f, g}| == 7
  {
  }

  /** `montarMapa`: creates the seven rooms and links them as `MansionPlan`
      says; the hall is the entry, and no clue has been collected yet. */
  method BuildMansion() returns (hall: Room, ghost rooms: set<Room>)
    ensures hall in rooms && Closed(rooms) && |rooms| == 7 && fresh(rooms)
    ensures forall r :: r in rooms ==> !r.collected
    ensures Realizes(hall, MansionPlan, rooms)
  {
    hall := new Room("Hall de Entrada", "A altura do culpado e acima de 1.80m.");
    var livingRoom := new Room("Sala de Estar", "O culpado fuma charutos cubanos.");
    var kitchen := new Room("Cozinha", "O culpado possui uma alergia a amendoim.");
    hall.left := livingRoom;
    hall.right := kitchen;
    var bedroom := new Room("Quarto Principal", "O culpado tem um relogio suico de ouro.");
    var library := new Room("Biblioteca", "A arma do crime e um castical de bronze.");
    livingRoom.left := bedroom;
    livingRoom.right := library;
    var pantry := new Room("Dispensa", "O culpado deixou um lenco bordado com a letra 'C'.");
    kitchen.right := pantry;
    var bathroom := new Room("Banheiro", "A digital do culpado esta na lamina da faca.");
    bedroom.left := bathroom;
    rooms := {hall, livingRoom, kitchen, bedroom, library, pantry, bathroom};
    SevenRooms(hall, livingRoom, kitchen, bedroom, library, pantry, bathroom);
    LinkedAsPlanned(hall, livingRoom, kitchen, bedroom, library, pantry, bathroom);
  }
}
