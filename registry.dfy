/** The Windows registry as the searcher sees it: a finite tree of keys in
    which every call into the registry API either answers or throws. */
module Registry {

  datatype Option<+T> = None | Some(value: T)

  /** The outcome of one registry API call: its answer, or an exception. */
  datatype Fallible<+T> = Ok(value: T) | Throws

  /** One value of a key. `data` is what `GetValue(name) as string` yields:
      Some(s) for a string payload, None for a payload of another type (or one
      that is gone), or an exception. */
  datatype Value = Value(name: string, data: Fallible<Option<string>>)

  /** What `OpenSubKey(name)` yields for one of the names `GetSubKeyNames` lists. */
  datatype Opening = Opened(key: Key) | NullKey | OpenThrows

  /** What `GetSubKeyNames()` yields: the sub-key names, each with what
      `OpenSubKey` yields for it, or an exception. */
  datatype SubKeys = Listed(openings: seq<Opening>) | ListThrows

  /** An open key. Each field is the answer of one API call on it:
      `Name`, `GetValueNames` (each name with its `GetValue` answer),
      `SubKeyCount` and `GetSubKeyNames` (each name with its `OpenSubKey` answer). */
  datatype Key = Key(
    name: string,
    valueNames: Fallible<seq<Value>>,
    subKeyCount: Fallible<nat>,
    subKeyNames: SubKeys)

  /** `c` is reached from `k` through one or more keys that open. */
  ghost predicate Below(k: Key, c: Key)
    decreases k
  {
    && k.subKeyNames.Listed?
    && exists o :: o in k.subKeyNames.openings && o.Opened? && (o.key == c || Below(o.key, c))
  }

  /** Every call on `k` and on every key below it answers, every sub-key opens,
      and `SubKeyCount` agrees with the list of sub-key names. */
  ghost predicate Healthy(k: Key)
    decreases k, 1
  {
    && k.valueNames.Ok?
    && k.subKeyNames.Listed?
    && k.subKeyCount == Ok(|k.subKeyNames.openings|)
    && (forall v :: v in k.valueNames.value ==> v.data.Ok?)
    && SubtreesHealthy(k)
  }

  /** The sub-keys of `k` list, and each of them opens to a healthy key.
      Nothing is asked of `k`'s own values or `SubKeyCount`. */
  ghost predicate SubtreesHealthy(k: Key)
    decreases k, 0
  {
    && k.subKeyNames.Listed?
    && (forall o :: o in k.subKeyNames.openings ==> o.Opened? && Healthy(o.key))
  }
}
