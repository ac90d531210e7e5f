/** Types shared by both versions of the engine: the three-valued tick
    result, the blackboard's tagged values, and what a leaf function does
    to the blackboard. */
module Core {

  /** The outcome of one tick of a node. */
  datatype NodeResult = Passed | Failed | Running

  datatype Option<T> = None | Some(value: T)

  /** A blackboard key. */
  type Key = string

  /** The name of the Rust type a value was stored under; typed reads
      succeed only when the requested type is the stored one. */
  type TypeId = string

  /** A type-erased blackboard value: the type it was stored as, and its
      contents, which the engine itself never inspects. */
  datatype Value = Value(ty: TypeId, payload: seq<int>)

  /** The contents of a blackboard: at most one value per key. */
  type Board = map<Key, Value>

  /** What an action function does: the result it reports and the
      blackboard it leaves behind (it receives the board by `&mut`). */
  datatype Effect = Effect(result: NodeResult, board: Board)

  /** What a condition predicate does: its verdict and the blackboard it
      leaves behind. */
  datatype Check = Check(holds: bool, board: Board)

  /** The result mapping of an Inverter: Passed and Failed swap, Running
      passes through. */
  function Invert(r: NodeResult): (s: NodeResult)
    ensures (s == Running) <==> (r == Running)
    ensures r != Running ==> s != r
  {
    match r
    case Passed => Failed
    case Failed => Passed
    case Running => Running
  }

  /** Inverting twice gives back the original result, for all three
      results. */
  lemma InvertInvolutive(r: NodeResult)
    ensures Invert(Invert(r)) == r
  {
  }
}
