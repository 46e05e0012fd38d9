/** Filter objects of the notification center and the isMatching: rule they share. */
module Filters {

  /** nil or an object: a registration or a send may come without a filter. */
  datatype Option<+T> = None | Some(value: T)

  /** The classes that adopt the filter protocol: the five Foundation and Core Data classes
      given a category, and any other NSObject class that adopts it, named by its class name. */
  datatype FilterClass =
    | StringClass             // NSString
    | ArrayClass              // NSArray
    | DictionaryClass         // NSDictionary
    | ManagedObjectIDClass    // NSManagedObjectID
    | ManagedObjectClass      // NSManagedObject
    | OtherClass(name: string)

  /** A filter object: its concrete class, and a canonical encoding of the value that class's
      own equality compares, as a sequence of integers: two objects of one class are equal
      exactly when their encodings are (so a dictionary's encoding lists its entries in a fixed
      key order, since NSDictionary equality ignores order). */
  datatype Filter = Filter(cls: FilterClass, value: seq<int>)

  /** isMatching: sent to `receiver` with argument `other`. Objects of different classes never
      match, even when their encodings coincide; objects of one class match when they are equal. */
  function IsMatching(receiver: Filter, other: Filter): (r: bool)
    ensures receiver.cls != other.cls ==> !r
    ensures r <==> receiver == other
  {
    receiver.cls == other.cls && receiver.value == other.value
  }
}
