/**
  Dynamic enums of the editor's UI services: named tables that map integer values to
  display names, filled at run time, and a process-wide registry of such tables
  looked up by enum name.
*/
module DynamicEnums {
  import opened Common

  /** Name reported for a value that the table does not hold. */
  const INVALID_VALUE_NAME: string := "<invalid value>"

  /** One dynamic enum: its valid values and their names. */
  class DynamicEnum {
    var validValues: map<i32, string>

    /** A freshly created table holds no value. */
    constructor ()
      ensures validValues == map[]
    {
      validValues := map[];
    }

    /** Whether `value` is one of the table's values. */
    predicate IsValueValid(value: i32)
      reads this
    {
      value in validValues
    }

    /** The name of `value`; the fixed invalid-value text for a value the table does not hold. */
    function GetValueName(value: i32): (name: string)
      reads this
      ensures IsValueValid(value) ==> name == validValues[value]
      ensures !IsValueValid(value) ==> name == INVALID_VALUE_NAME
    {
      if value in validValues then validValues[value] else INVALID_VALUE_NAME
    }

    /** Forgets every value. */
    method Clear()
      modifies this
      ensures forall v: i32 :: !IsValueValid(v)
      ensures forall v: i32 :: GetValueName(v) == INVALID_VALUE_NAME
    {
      validValues := map[];
    }

    /** Adds `value` or renames it; no other value changes. */
    method SetValueAndName(value: i32, newName: string)
      modifies this
      ensures IsValueValid(value) && GetValueName(value) == newName
      ensures forall v: i32 :: v != value ==>
        IsValueValid(v) == old(IsValueValid(v)) && GetValueName(v) == old(GetValueName(v))
      ensures validValues.Keys == old(validValues.Keys) + {value}
    {
      validValues := validValues[value := newName];
    }

    /** Removes `value` (nothing happens when it is absent); no other value changes. */
    method RemoveValue(value: i32)
      modifies this
      ensures !IsValueValid(value) && GetValueName(value) == INVALID_VALUE_NAME
      ensures forall v: i32 :: v != value ==>
        IsValueValid(v) == old(IsValueValid(v)) && GetValueName(v) == old(GetValueName(v))
      ensures validValues.Keys == old(validValues.Keys) - {value}
    {
      validValues := validValues - {value};
    }
  }

  /** The registry of all dynamic enums, keyed by enum name. */
  class Registry {
    var dynamicEnums: map<string, DynamicEnum>

    constructor ()
      ensures dynamicEnums == map[]
    {
      dynamicEnums := map[];
    }

    /** The table registered under `enumName`; an empty one is created and registered on first access. */
    method GetDynamicEnum(enumName: string) returns (table: DynamicEnum)
      modifies this
      ensures enumName in old(dynamicEnums) ==> table == old(dynamicEnums)[enumName] && dynamicEnums == old(dynamicEnums)
      ensures enumName !in old(dynamicEnums) ==>
        fresh(table) && table.validValues == map[] && dynamicEnums == old(dynamicEnums)[enumName := table]
      ensures enumName in dynamicEnums && dynamicEnums[enumName] == table
    {
      if enumName in dynamicEnums {
        table := dynamicEnums[enumName];
      } else {
        table := new DynamicEnum();
        dynamicEnums := dynamicEnums[enumName := table];
      }
    }
  }

  /** Two lookups of the same name, with any use of the table in between, yield one table. */
  method LookupTwice(registry: Registry, enumName: string, value: i32, newName: string)
    returns (first: DynamicEnum, second: DynamicEnum)
    modifies registry, registry.dynamicEnums.Values
    ensures first == second
    ensures second.IsValueValid(value) && second.GetValueName(value) == newName
  {
    first := registry.GetDynamicEnum(enumName);
    first.SetValueAndName(value, newName);
    second := registry.GetDynamicEnum(enumName);
  }
}
