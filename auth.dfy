/** The local credential store behind the login dialog. The browser's
    key-value storage is an object holding a map from keys to the values the
    components read back; the dialog keeps its error message as a field.
    Submitting checks the fields, then either registers the user (a new
    password record plus an empty habit list and zero experience under that
    user's own keys) or checks the password, and reports the username handed
    to the login callback, if any. */
module Auth {
  import Habits

  datatype Option<T> = None | Some(value: T)

  /** A value held under one storage key, as the components read it back. */
  datatype Value =
    | PasswordRecords(passwords: map<string, string>)
    | HabitList(habits: seq<Habits.Habit>)
    | Number(n: int)
    | Unreadable

  const UsersKey := "users"
  const EmptyFieldsError := "Preencha todos os campos"
  const UserExistsError := "Usuário já existe"
  const InvalidCredentialsError := "Credenciais inválidas"

  function HabitsKey(username: string): string {
    "habits_" + username
  }

  function XpKey(username: string): string {
    "xp_" + username
  }

  /** The user records, or the empty record when the key is missing or does
      not hold records. */
  function LoadUsers(items: map<string, Value>): (users: map<string, string>)
    ensures UsersKey !in items ==> users == map[]
    ensures forall m :: UsersKey in items && items[UsersKey] == PasswordRecords(m) ==> users == m
    ensures UsersKey in items && !items[UsersKey].PasswordRecords? ==> users == map[]
  {
    if UsersKey in items && items[UsersKey].PasswordRecords? then items[UsersKey].passwords
    else map[]
  }

  /** The three keys a registration writes never collide: not with each
      other, and not with another user's keys. */
  lemma {:induction false} PerUserKeysDistinct(u: string, v: string)
    ensures HabitsKey(u) != UsersKey && XpKey(u) != UsersKey
    ensures HabitsKey(u) != XpKey(v)
    ensures HabitsKey(u) == HabitsKey(v) <==> u == v
    ensures XpKey(u) == XpKey(v) <==> u == v
  {
    assert HabitsKey(u)[0] == 'h' && XpKey(v)[0] == 'x' && UsersKey[0] == 'u';
    assert HabitsKey(u)[7..] == u && HabitsKey(v)[7..] == v;
    assert XpKey(u)[3..] == u && XpKey(v)[3..] == v;
  }

  /** The browser's storage: each write replaces one key. */
  class Store {
    var items: map<string, Value>

    constructor (items: map<string, Value>)
      ensures this.items == items
    {
      this.items := items;
    }

    method SetItem(key: string, value: Value)
      modifies this
      ensures items == old(items)[key := value]
    {
      items := items[key := value];
    }
  }

  /** The dialog's own state: the mode it is in and the message it shows. */
  class AuthModal {
    var isRegister: bool
    var error: string

    constructor ()
      ensures !isRegister && error == ""
    {
      isRegister := false;
      error := "";
    }

    /** Submission of the dialog with the current mode and field values.
        Returns the username passed to the login callback, if it was called. */
    method HandleSubmit(store: Store, username: string, password: string)
      returns (login: Option<string>)
      modifies this, store
      ensures isRegister == old(isRegister)
      // An empty field is reported first, whatever the mode and the records.
      ensures username == "" || password == "" ==>
        login == None && error == EmptyFieldsError && store.items == old(store.items)
      // Registering a taken name writes nothing.
      ensures username != "" && password != "" && isRegister && username in LoadUsers(old(store.items)) ==>
        login == None && error == UserExistsError && store.items == old(store.items)
      // Registering a new name adds exactly its record and initialises its two keys.
      ensures username != "" && password != "" && isRegister && username !in LoadUsers(old(store.items)) ==>
        login == Some(username) && error == old(error) &&
        store.items == old(store.items)
          [UsersKey := PasswordRecords(LoadUsers(old(store.items))[username := password])]
          [HabitsKey(username) := HabitList([])]
          [XpKey(username) := Number(0)]
      // Logging in writes nothing and succeeds exactly on a matching record.
      ensures username != "" && password != "" && !isRegister ==>
        store.items == old(store.items) &&
        (login.Some? <==> username in LoadUsers(old(store.items)) && LoadUsers(old(store.items))[username] == password) &&
        (login.Some? ==> login.value == username && error == old(error)) &&
        (login.None? ==> error == InvalidCredentialsError)
    {
      var users := LoadUsers(store.items);

      if username == "" || password == "" {
        error := EmptyFieldsError;
        return None;
      }

      if isRegister {
        if username in users {
          error := UserExistsError;
          return None;
        }
        users := users[username := password];
        store.SetItem(UsersKey, PasswordRecords(users));
        store.SetItem(HabitsKey(username), HabitList([]));
        store.SetItem(XpKey(username), Number(0));
        login := Some(username);
      } else {
        if username !in users || users[username] != password {
          error := InvalidCredentialsError;
          return None;
        }
        login := Some(username);
      }
    }

    /** The link under the button: switch mode and clear the message. */
    method ToggleMode()
      modifies this
      ensures isRegister == !old(isRegister) && error == ""
    {
      isRegister := !isRegister;
      error := "";
    }
  }

  /** A registration followed by a login with the same credentials succeeds,
      and registers no other user. */
  method RegisterThenLogin(store: Store, modal: AuthModal, username: string, password: string)
    returns (registered: Option<string>, loggedIn: Option<string>)
    requires username != "" && password != ""
    requires username !in LoadUsers(store.items)
    requires modal.isRegister
    modifies store, modal
    ensures registered == Some(username) && loggedIn == Some(username)
    ensures !modal.isRegister
    ensures LoadUsers(store.items) == LoadUsers(old(store.items))[username := password]
  {
    registered := modal.HandleSubmit(store, username, password);
    PerUserKeysDistinct(username, username);
    modal.ToggleMode();
    loggedIn := modal.HandleSubmit(store, username, password);
  }

  // ---------------------------------------------------------------------------
  // The record lookup as JavaScript performs it

  /** The properties every plain object inherits from Object.prototype. Reading
      one of them from a record that lacks it as an own key yields a truthy value. */
  const ObjectPrototypeNames: set<string> := {
    "constructor", "__proto__", "toString", "toLocaleString", "valueOf",
    "hasOwnProperty", "isPrototypeOf", "propertyIsEnumerable",
    "__defineGetter__", "__defineSetter__", "__lookupGetter__", "__lookupSetter__"
  }

  /** What `users[username]` yields on the loaded records. */
  datatype Lookup = Own(password: string) | Inherited | Missing

  function LookupAsWritten(users: map<string, string>, username: string): (r: Lookup)
    ensures r.Own? <==> username in users
    ensures r.Own? ==> r.password == users[username]
    ensures r.Inherited? <==> username !in users && username in ObjectPrototypeNames
    ensures r.Missing? <==> username !in users && username !in ObjectPrototypeNames
  {
    if username in users then Own(users[username])
    else if username in ObjectPrototypeNames then Inherited
    else Missing
  }

  /** The register-branch test `if (users[username])`, as written. */
  function DuplicateAsWritten(users: map<string, string>, username: string): (dup: bool)
    ensures username in users ==> dup
    ensures dup <==> username in users || username in ObjectPrototypeNames
  {
    !LookupAsWritten(users, username).Missing?
  }

  /** The login-branch test, negated, as written: an inherited member has no
      `password` property, so the comparison with the typed password rejects
      it, and the test agrees with a lookup of the user's own record. */
  function LoginAcceptedAsWritten(users: map<string, string>, username: string, password: string): (accepted: bool)
    ensures accepted <==> username in users && users[username] == password
  {
    match LookupAsWritten(users, username)
    case Own(stored) => stored == password
    case Inherited => false
    case Missing => false
  }

  /** As written, a name nobody registered is refused as taken. */
  lemma PrototypeNameRefusedAsWritten()
    ensures var users: map<string, string> := map[];
      "constructor" !in users && DuplicateAsWritten(users, "constructor")
  {
  }
}
