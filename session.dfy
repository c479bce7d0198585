/** Login by picking one's name from the "Colaboradores" worksheet, and the
    one-slot session that remembers who is logged in. */
module Session {
  import opened Sheet

  /** The agents' names: the first column of "Colaboradores" without its
      header cell. A header-only or empty column gives no names. */
  function Roster(column: seq<string>): (names: seq<string>)
    ensures |names| == if |column| == 0 then 0 else |column| - 1
    ensures forall i :: 0 <= i < |names| ==> names[i] == column[i + 1]
  {
    if |column| == 0 then [] else column[1..]
  }

  /** What the login list offers: a blank entry, then every name. */
  function Choices(column: seq<string>): (options: seq<string>)
    ensures |options| == |Roster(column)| + 1 && options[0] == ""
    ensures forall x :: x in options && x != "" ==> x in Roster(column)
    ensures forall x :: x in Roster(column) ==> x in options
  {
    [""] + Roster(column)
  }

  class SessionState {
    /** st.session_state['usuario']: the agent logged in, if any. */
    var usuario: Option<string>

    constructor ()
      ensures usuario == None
    {
      usuario := None;
    }

    /** "Entrar no Sistema" with the name picked from the list. A blank pick
        is refused with a warning and nothing changes. */
    method Login(column: seq<string>, choice: string) returns (ok: bool)
      requires usuario.None?
      requires choice in Choices(column)
      modifies this
      ensures ok <==> choice != ""
      ensures usuario == if ok then Some(choice) else None
      ensures usuario.Some? ==> usuario.value in Roster(column) && usuario.value != ""
    {
      ok := choice != "";
      if ok {
        usuario := Some(choice);
      }
    }

    /** "Sair / Trocar Usuário": forget who is logged in. */
    method Logout()
      requires usuario.Some?
      modifies this
      ensures usuario == None
    {
      usuario := None;
    }
  }
}
