/** The browser's `localStorage`, shared by the sign-in page and the navigation bar. */
module CredentialStore {
  import opened Wrappers

  /** The one key the components use for the session record. */
  const GoogleCredentialKey: string := "googleCredential"

  /** Removing a key undoes any value just set for it. */
  lemma SetThenRemove(items: map<string, string>, key: string, value: string)
    ensures items[key := value] - {key} == items - {key}
  {
  }

  class Storage {
    var items: map<string, string>

    constructor ()
      ensures items == map[]
    {
      items := map[];
    }

    /** `localStorage.getItem(key)`; None stands for `null`. */
    function GetItem(key: string): (r: Option<string>)
      reads this
      ensures r.Some? <==> key in items
      ensures r.Some? ==> r.value == items[key]
    {
      if key in items then Some(items[key]) else None
    }

    /** `localStorage.setItem(key, value)`. */
    method SetItem(key: string, value: string)
      modifies this
      ensures items == old(items)[key := value]
    {
      items := items[key := value];
    }

    /** `localStorage.removeItem(key)`: removing an absent key is allowed and changes nothing. */
    method RemoveItem(key: string)
      modifies this
      ensures items == old(items) - {key}
    {
      items := items - {key};
    }
  }
}
