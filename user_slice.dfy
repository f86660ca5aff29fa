/**
 * The user slice of the web client's store (front/src/features/user/userSlice.js):
 * the player name chosen on this client. The reducers assign the store's
 * field in place; `Set` and `Clear` give the name each one leaves.
 */
module UserSlice {

  /** The initial name. */
  const InitialName: string := ""

  /** The name setUsername leaves. */
  function Set(name: string, payload: string): (r: string)
    ensures r == payload
  {
    payload
  }

  /** The name clearUsername leaves. */
  function Clear(name: string): (r: string)
    ensures r == InitialName
  {
    ""
  }

  /** setUsername does not depend on the previous name. */
  lemma SetForgetsPriorName(a: string, b: string, payload: string)
    ensures Set(a, payload) == Set(b, payload)
  {
  }

  /** clearUsername is idempotent. */
  lemma ClearIdempotent(name: string)
    ensures Clear(Clear(name)) == Clear(name)
  {
  }

  /** Setting and then clearing the name gives back the initial state. */
  lemma SetThenClearIsInitial(name: string, payload: string)
    ensures Clear(Set(name, payload)) == InitialName
  {
  }

  /** The store holding the slice. */
  class UserStore {
    var username: string

    /** A store in the initial state. */
    constructor ()
      ensures username == InitialName
    {
      username := "";
    }

    /** setUsername, in place. */
    method SetUsername(payload: string)
      modifies this
      ensures username == Set(old(username), payload)
    {
      username := payload;
    }

    /** clearUsername, in place. */
    method ClearUsername()
      modifies this
      ensures username == Clear(old(username))
    {
      username := "";
    }
  }
}
