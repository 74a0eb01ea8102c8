/**
 * The records of src/types.ts in the shape the shown code builds them: declarations carry no
 * parameter types, and cost items carry an allocation cost but no parameter types or trace.
 */
module Types {
  import opened Wrappers
  import opened TextDocument

  /** A method declaration found in a document. */
  datatype MethodDeclaration = MethodDeclaration(name: string, declarationRange: Range, nameRange: Range)

  /**
   * One block of a line diff. `added` and `removed` are optional properties: `None` is an absent
   * property, which is not the same as one that is present and false.
   */
  datatype LineDiff = LineDiff(count: int, added: Option<bool>, removed: Option<bool>, value: string)

  /** Where Infer places a procedure. */
  datatype Location = Location(file: string, lnum: int)

  /** One cost as the extension stores it. */
  datatype Cost = Cost(polynomial: string, degree: int, bigO: string)

  /** The cost data for one method; also the entries of a cost history. */
  datatype InferCostItem = InferCostItem(
    id: string,
    methodName: string,
    timestamp: Option<string>,
    loc: Location,
    allocCost: Cost,
    execCost: Cost)
}
